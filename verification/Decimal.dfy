/** Counting, printing and reading decimal digits. */
module Decimal {
  import opened Arith
  import opened Limbs
  import opened BigintClass
  import opened Digits

  // ---- What the decimal form of a number is ----

  function NumDigits(n: nat): nat {
    if n < 10 then 1 else 1 + NumDigits(n / 10)
  }

  function DecimalString(n: nat): string {
    if n < 10 then [DigitChar(n)] else DecimalString(n / 10) + [DigitChar(n % 10)]
  }

  function DigitChar(d: nat): (c: char)
    requires d < 10
    ensures IsDigit(c) && DigitOf(c) == d
  {
    ('0' as int + d) as char
  }

  /** The digits denote the number, there are as many as counted, and none is a leading zero. */
  lemma {:induction false} DecimalStringDenotes(n: nat)
    ensures AllDigits(DecimalString(n)) && Denotes(DecimalString(n)) == n
    ensures |DecimalString(n)| == NumDigits(n) >= 1
    ensures n > 0 ==> DecimalString(n)[0] != '0'
  {
    if n < 10 {
      DenotesPush([], DigitChar(n));
      assert [] + [DigitChar(n)] == [DigitChar(n)];
    } else {
      DecimalStringDenotes(n / 10);
      DenotesPush(DecimalString(n / 10), DigitChar(n % 10));
    }
  }

  lemma {:induction false} NumDigitsBounds(n: nat)
    ensures NumDigits(n) >= 1 && n < Pow(10, NumDigits(n))
    ensures n >= 10 ==> Pow(10, NumDigits(n) - 1) <= n
    ensures n > 0 ==> Pow(10, NumDigits(n) - 1) <= n
  {
    if n >= 10 { NumDigitsBounds(n / 10); }
  }

  /** The bounds determine the count. */
  lemma NumDigitsBetween(n: nat, k: nat)
    requires k >= 1 && n < Pow(10, k) && (k == 1 || Pow(10, k - 1) <= n)
    ensures NumDigits(n) == k
  {
    hide Pow;
    NumDigitsBounds(n);
    PowNext(10, 0);
    var d := NumDigits(n);
    if d < k {
      PowMonotone(10, d, k - 1);
    } else if k < d {
      PowMonotone(10, k, d - 1);
    }
  }

  // ---- count_digits: division by ten thousand ----

  method CountDigitsFallback(n0: nat) returns (count: nat)
    ensures count == NumDigits(n0)
  {
    var n := n0;
    count := 1;
    while true
      invariant NumDigits(n0) == NumDigits(n) + count - 1
      decreases n
    {
      FourDigits(n);
      if n < 10 { return count; }
      if n < 100 { return count + 1; }
      if n < 1000 { return count + 2; }
      if n < 10000 { return count + 3; }
      n := n / 10000;
      count := count + 4;
    }
  }

  lemma FourDigits(n: nat)
    ensures n < 10 ==> NumDigits(n) == 1
    ensures 10 <= n < 100 ==> NumDigits(n) == 2
    ensures 100 <= n < 1000 ==> NumDigits(n) == 3
    ensures 1000 <= n < 10000 ==> NumDigits(n) == 4
    ensures n >= 10000 ==> NumDigits(n) == 4 + NumDigits(n / 10000)
  {
    if n >= 10 {
      assert NumDigits(n) == 1 + NumDigits(n / 10);
      if n >= 100 {
        assert NumDigits(n / 10) == 1 + NumDigits(n / 100) by { assert n / 10 / 10 == n / 100; }
        if n >= 1000 {
          assert NumDigits(n / 100) == 1 + NumDigits(n / 1000) by { assert n / 100 / 10 == n / 1000; }
          if n >= 10000 {
            assert NumDigits(n / 1000) == 1 + NumDigits(n / 10000) by { assert n / 1000 / 10 == n / 10000; }
          }
        }
      }
    }
  }

  // ---- count_digits: by the position of the top bit ----

  /** The index of the highest one bit. */
  function Bsr(n: nat): nat {
    if n < 2 then 0 else 1 + Bsr(n / 2)
  }

  /** n | 1. */
  function OrOne(n: nat): nat { if n % 2 == 0 then n + 1 else n }

  lemma {:induction false} BsrBounds(n: nat)
    requires n > 0
    ensures Pow(2, Bsr(n)) <= n < Pow(2, Bsr(n) + 1)
  {
    if n >= 2 { BsrBounds(n / 2); }
  }

  lemma BsrOrOne(n: nat)
    ensures n < Pow(2, Bsr(OrOne(n)) + 1)
    ensures Bsr(OrOne(n)) > 0 ==> Pow(2, Bsr(OrOne(n))) <= n
  {
    BsrBounds(OrOne(n));
    var b := Bsr(OrOne(n));
    if b > 0 {
      assert Pow(2, b) == 2 * Pow(2, b - 1);
    }
  }

  lemma BsrBelow(n: nat, k: nat)
    requires n < Pow(2, k) && k > 0
    ensures Bsr(OrOne(n)) < k
  {
    BsrOrOne(n);
    if Bsr(OrOne(n)) >= k {
      PowMonotone(2, k, Bsr(OrOne(n)));
    }
  }

  /** The table from top bit to digit count, written by its runs of equal entries. */
  function Bsr2Log10(b: nat): nat
    requires b < 64
  {
    if b <= 2 then 1 else if b <= 5 then 2 else if b <= 8 then 3 else if b <= 12 then 4
    else if b <= 15 then 5 else if b <= 18 then 6 else if b <= 22 then 7 else if b <= 25 then 8
    else if b <= 28 then 9 else if b <= 32 then 10 else if b <= 35 then 11 else if b <= 38 then 12
    else if b <= 42 then 13 else if b <= 45 then 14 else if b <= 48 then 15 else if b <= 52 then 16
    else if b <= 55 then 17 else if b <= 58 then 18 else if b <= 62 then 19 else 20
  }

  /** Entry t for top bit b is the count or one more: 10^(t-2) <= 2^b and 2^(b+1) <= 10^t. */
  predicate RowGood(b: nat, t: nat) {
    1 <= t <= 20 && Pow(2, b + 1) <= Pow(10, t) && (t >= 2 ==> b > 0 && Pow(10, t - 2) <= Pow(2, b))
  }

  lemma RunGood(lo: nat, hi: nat, t: nat, b: nat)
    requires lo <= b <= hi && RowGood(lo, t) && RowGood(hi, t)
    ensures RowGood(b, t)
  {
    hide Pow;
    PowMonotone(2, lo, b);
    PowMonotone(2, b + 1, hi + 1);
  }

  lemma Table64Good(b: nat)
    requires b < 64
    ensures RowGood(b, Bsr2Log10(b))
  {
    hide Pow;
    TwoPowers();
    TenPowers();
    if b <= 2 { RunGood(0, 2, 1, b); }
    else if b <= 5 { RunGood(3, 5, 2, b); }
    else if b <= 8 { RunGood(6, 8, 3, b); }
    else if b <= 12 { RunGood(9, 12, 4, b); }
    else if b <= 15 { RunGood(13, 15, 5, b); }
    else if b <= 18 { RunGood(16, 18, 6, b); }
    else if b <= 22 { RunGood(19, 22, 7, b); }
    else if b <= 25 { RunGood(23, 25, 8, b); }
    else if b <= 28 { RunGood(26, 28, 9, b); }
    else if b <= 32 { RunGood(29, 32, 10, b); }
    else if b <= 35 { RunGood(33, 35, 11, b); }
    else if b <= 38 { RunGood(36, 38, 12, b); }
    else if b <= 42 { RunGood(39, 42, 13, b); }
    else if b <= 45 { RunGood(43, 45, 14, b); }
    else if b <= 48 { RunGood(46, 48, 15, b); }
    else if b <= 52 { RunGood(49, 52, 16, b); }
    else if b <= 55 { RunGood(53, 55, 17, b); }
    else if b <= 58 { RunGood(56, 58, 18, b); }
    else if b <= 62 { RunGood(59, 62, 19, b); }
    else if b <= 63 { RunGood(63, 63, 20, b); }
  }

  lemma TwoPowers()
    ensures Pow(2, 0) == 1 && Pow(2, 1) == 2
    ensures Pow(2, 2) == 4 && Pow(2, 3) == 8
    ensures Pow(2, 4) == 16 && Pow(2, 5) == 32
    ensures Pow(2, 6) == 64 && Pow(2, 7) == 128
    ensures Pow(2, 8) == 256 && Pow(2, 9) == 512
    ensures Pow(2, 10) == 1024 && Pow(2, 11) == 2048
    ensures Pow(2, 12) == 4096 && Pow(2, 13) == 8192
    ensures Pow(2, 14) == 16384 && Pow(2, 15) == 32768
    ensures Pow(2, 16) == 65536 && Pow(2, 17) == 131072
    ensures Pow(2, 18) == 262144 && Pow(2, 19) == 524288
    ensures Pow(2, 20) == 1048576 && Pow(2, 21) == 2097152
    ensures Pow(2, 22) == 4194304 && Pow(2, 23) == 8388608
    ensures Pow(2, 24) == 16777216 && Pow(2, 25) == 33554432
    ensures Pow(2, 26) == 67108864 && Pow(2, 27) == 134217728
    ensures Pow(2, 28) == 268435456 && Pow(2, 29) == 536870912
    ensures Pow(2, 30) == 1073741824 && Pow(2, 31) == 2147483648
    ensures Pow(2, 32) == 4294967296 && Pow(2, 33) == 8589934592
    ensures Pow(2, 34) == 17179869184 && Pow(2, 35) == 34359738368
    ensures Pow(2, 36) == 68719476736 && Pow(2, 37) == 137438953472
    ensures Pow(2, 38) == 274877906944 && Pow(2, 39) == 549755813888
    ensures Pow(2, 40) == 1099511627776 && Pow(2, 41) == 2199023255552
    ensures Pow(2, 42) == 4398046511104 && Pow(2, 43) == 8796093022208
    ensures Pow(2, 44) == 17592186044416 && Pow(2, 45) == 35184372088832
    ensures Pow(2, 46) == 70368744177664 && Pow(2, 47) == 140737488355328
    ensures Pow(2, 48) == 281474976710656 && Pow(2, 49) == 562949953421312
    ensures Pow(2, 50) == 1125899906842624 && Pow(2, 51) == 2251799813685248
    ensures Pow(2, 52) == 4503599627370496 && Pow(2, 53) == 9007199254740992
    ensures Pow(2, 54) == 18014398509481984 && Pow(2, 55) == 36028797018963968
    ensures Pow(2, 56) == 72057594037927936 && Pow(2, 57) == 144115188075855872
    ensures Pow(2, 58) == 288230376151711744 && Pow(2, 59) == 576460752303423488
    ensures Pow(2, 60) == 1152921504606846976 && Pow(2, 61) == 2305843009213693952
    ensures Pow(2, 62) == 4611686018427387904 && Pow(2, 63) == 9223372036854775808
    ensures Pow(2, 64) == 18446744073709551616
  {}

  lemma TenPowers()
    ensures Pow(10, 0) == 1
    ensures Pow(10, 1) == 10
    ensures Pow(10, 2) == 100
    ensures Pow(10, 3) == 1000
    ensures Pow(10, 4) == 10000
    ensures Pow(10, 5) == 100000
    ensures Pow(10, 6) == 1000000
    ensures Pow(10, 7) == 10000000
    ensures Pow(10, 8) == 100000000
    ensures Pow(10, 9) == 1000000000
    ensures Pow(10, 10) == 10000000000
    ensures Pow(10, 11) == 100000000000
    ensures Pow(10, 12) == 1000000000000
    ensures Pow(10, 13) == 10000000000000
    ensures Pow(10, 14) == 100000000000000
    ensures Pow(10, 15) == 1000000000000000
    ensures Pow(10, 16) == 10000000000000000
    ensures Pow(10, 17) == 100000000000000000
    ensures Pow(10, 18) == 1000000000000000000
    ensures Pow(10, 19) == 10000000000000000000
    ensures Pow(10, 20) == 100000000000000000000
  {}

  const POWERS_OF_10: seq<nat> := [
    0, 0, 10, 100, 1000, 10000, 100000, 1000000, 10000000, 100000000, 1000000000, 10000000000, 100000000000,
    1000000000000, 10000000000000, 100000000000000, 1000000000000000, 10000000000000000, 100000000000000000,
    1000000000000000000, 10000000000000000000
  ]

  /** The entry, less one when the number is below the power of ten it stands for. */
  function CountDigits64(n: uint64): int {
    var b := TopBit64(n);
    var t := Bsr2Log10(b);
    Table64Good(b);
    t - (if n < POWERS_OF_10[t] then 1 else 0)
  }

  /** clzll(n | 1) ^ 63. */
  function TopBit64(n: uint64): (b: nat)
    ensures b < 64 && n < Pow(2, b + 1) && (b > 0 ==> Pow(2, b) <= n)
  {
    TwoPowers();
    BsrBelow(n, 64);
    BsrOrOne(n);
    Bsr(OrOne(n))
  }

  lemma PowerOf10Entry(t: nat)
    requires t < |POWERS_OF_10|
    ensures POWERS_OF_10[t] == if t < 2 then 0 else Pow(10, t - 1)
  {
    TenPowers();
    if t == 0 { assert POWERS_OF_10[0] == 0; }
    else if t == 1 { assert POWERS_OF_10[1] == 0; }
    else if t == 2 { assert POWERS_OF_10[2] == 10; }
    else if t == 3 { assert POWERS_OF_10[3] == 100; }
    else if t == 4 { assert POWERS_OF_10[4] == 1000; }
    else if t == 5 { assert POWERS_OF_10[5] == 10000; }
    else if t == 6 { assert POWERS_OF_10[6] == 100000; }
    else if t == 7 { assert POWERS_OF_10[7] == 1000000; }
    else if t == 8 { assert POWERS_OF_10[8] == 10000000; }
    else if t == 9 { assert POWERS_OF_10[9] == 100000000; }
    else if t == 10 { assert POWERS_OF_10[10] == 1000000000; }
    else if t == 11 { assert POWERS_OF_10[11] == 10000000000; }
    else if t == 12 { assert POWERS_OF_10[12] == 100000000000; }
    else if t == 13 { assert POWERS_OF_10[13] == 1000000000000; }
    else if t == 14 { assert POWERS_OF_10[14] == 10000000000000; }
    else if t == 15 { assert POWERS_OF_10[15] == 100000000000000; }
    else if t == 16 { assert POWERS_OF_10[16] == 1000000000000000; }
    else if t == 17 { assert POWERS_OF_10[17] == 10000000000000000; }
    else if t == 18 { assert POWERS_OF_10[18] == 100000000000000000; }
    else if t == 19 { assert POWERS_OF_10[19] == 1000000000000000000; }
    else if t == 20 { assert POWERS_OF_10[20] == 10000000000000000000; }
  }

  /** A power of ten within reach of the row settles the count. */
  lemma RowSettles(n: nat, b: nat, t: nat)
    requires RowGood(b, t) && n < Pow(2, b + 1) && (b > 0 ==> Pow(2, b) <= n)
    ensures NumDigits(n) == if t >= 2 && n < Pow(10, t - 1) then t - 1 else t
  {
    hide Pow;
    PowNext(10, 0);
    if t >= 2 && n < Pow(10, t - 1) {
      NumDigitsBetween(n, t - 1);
    } else {
      NumDigitsBetween(n, t);
    }
  }

  lemma CountDigits64Exact(n: uint64)
    ensures CountDigits64(n) == NumDigits(n)
  {
    hide Pow, Bsr2Log10, RowGood;
    var b := TopBit64(n);
    Table64Good(b);
    RowSettles(n, b, Bsr2Log10(b));
    RowRange(b);
    PowerOf10Entry(Bsr2Log10(b));
  }

  lemma RowRange(b: nat)
    requires b < 64
    ensures 1 <= Bsr2Log10(b) <= 20
  {}

  // ---- count_digits on 32-bit words: one addition and a shift ----

  /** The power of ten the increment for top bit b is built from. */
  function IncPower(b: nat): nat
    requires b < 32
  {
    if b <= 2 then 0 else if b <= 5 then 10 else if b <= 8 then 100 else if b <= 11 then 1000
    else if b <= 14 then 10000 else if b <= 17 then 100000 else if b <= 20 then 1000000
    else if b <= 23 then 10000000 else if b <= 26 then 100000000 else 1000000000
  }

  /** The count in the upper half, less the power, so that adding a number at or above it carries. */
  function CountDigitsInc(b: nat): uint64
    requires b < 32
  {
    var p := IncPower(b);
    (NumDigits(p) * BASE - p) % TWO64
  }

  /** clz(n | 1) ^ 31. */
  function TopBit32(n: uint32): (b: nat)
    ensures b < 32 && n < Pow(2, b + 1) && (b > 0 ==> Pow(2, b) <= n)
  {
    TwoPowers();
    BsrBelow(n, 32);
    BsrOrOne(n);
    Bsr(OrOne(n))
  }

  function CountDigits32(n: uint32): nat {
    ((n + CountDigitsInc(TopBit32(n))) % TWO64) / BASE
  }

  /** The row for top bit b, and its increment. */
  lemma Table32Good(b: nat) returns (t: nat)
    requires b < 32
    ensures RowGood(b, t) && IncPower(b) == (if t >= 2 then Pow(10, t - 1) else 0) <= BASE
    ensures CountDigitsInc(b) == t * BASE - IncPower(b)
  {
    hide Pow, NumDigits, RowGood;
    t := Row32(b);
    RowRange32(b, t);
    if t >= 2 {
      PowStrict(10, t - 1, t);
      NumDigitsBetween(IncPower(b), t);
    } else {
      OneDigit(0);
    }
  }

  lemma RowRange32(b: nat, t: nat)
    requires RowGood(b, t)
    ensures 1 <= t <= 20
  {}

  lemma Row32(b: nat) returns (t: nat)
    requires b < 32
    ensures RowGood(b, t) && IncPower(b) == (if t >= 2 then Pow(10, t - 1) else 0) <= BASE
  {
    hide Pow;
    TwoPowers();
    TenPowers();
    t := if b <= 2 then 1 else if b >= 27 then 10 else b / 3 + 1;
    if b <= 2 { RunGood(0, 2, t, b); }
    else if b <= 5 { RunGood(3, 5, t, b); }
    else if b <= 8 { RunGood(6, 8, t, b); }
    else if b <= 11 { RunGood(9, 11, t, b); }
    else if b <= 14 { RunGood(12, 14, t, b); }
    else if b <= 17 { RunGood(15, 17, t, b); }
    else if b <= 20 { RunGood(18, 20, t, b); }
    else if b <= 23 { RunGood(21, 23, t, b); }
    else if b <= 26 { RunGood(24, 26, t, b); }
    else { RunGood(27, 31, t, b); }
  }

  lemma CountDigits32Exact(n: uint32)
    ensures CountDigits32(n) == NumDigits(n)
  {
    hide Pow, IncPower, CountDigitsInc, NumDigits;
    var b := TopBit32(n);
    var t := Table32Good(b);
    RowRange32(b, t);
    RowSettles(n, b, t);
    UpperHalf(n, t, IncPower(b));
  }

  lemma UpperHalf(n: uint32, t: nat, p: nat)
    requires 1 <= t <= 20 && p <= BASE
    ensures ((n + (t * BASE - p)) % TWO64) / BASE == if n < p then t - 1 else t
  {}

  // ---- format_decimal: two digits at a time, from the back ----

  /** The table of digit pairs. */
  function Pair(v: nat): string
    requires v < 100
  {
    [DigitChar(v / 10), DigitChar(v % 10)]
  }

  lemma TwoDigits(v: nat)
    requires v >= 10
    ensures DecimalString(v) == (if v >= 100 then DecimalString(v / 100) else []) + Pair(v % 100)
    ensures NumDigits(v) == (if v >= 100 then NumDigits(v / 100) else 0) + 2
  {
    assert v / 10 / 10 == v / 100;
    assert v / 10 % 10 == v % 100 / 10;
    assert v % 10 == v % 100 % 10;
    if v >= 100 {
      assert DecimalString(v / 10) == DecimalString(v / 100) + [DigitChar(v / 10 % 10)];
    } else {
      assert DecimalString(v / 10) == [DigitChar(v / 10)];
    }
  }

  /** Copies the two digits of v < 100 to out. */
  method Copy2(out: array<char>, at: nat, v: nat)
    requires at + 2 <= out.Length && v < 100
    modifies out
    ensures out[..] == old(out[..at]) + Pair(v) + old(out[at + 2..])
  {
    hide DigitChar;
    out[at] := DigitChar(v / 10);
    out[at + 1] := DigitChar(v % 10);
  }

  /** What is written so far, with the digits still to come. */
  ghost predicate Written(now: seq<char>, before: seq<char>, begin: nat, size: nat, v: nat, value: nat) {
    && begin <= size <= |now| == |before|
    && now[..begin] == before[..begin] && now[size..] == before[size..]
    && DecimalString(value) == DecimalString(v) + now[begin..size]
  }

  lemma WrittenStart(s: seq<char>, size: nat, value: nat)
    requires size <= |s|
    ensures Written(s, s, size, size, value, value)
  {}

  lemma WrittenPair(now: seq<char>, before: seq<char>, begin: nat, size: nat, v: nat, value: nat, next: seq<char>)
    requires Written(now, before, begin, size, v, value) && v >= 100 && begin >= 2
    requires next == now[..begin - 2] + Pair(v % 100) + now[begin..]
    ensures Written(next, before, begin - 2, size, v / 100, value)
  {
    hide DecimalString, DigitChar;
    TwoDigits(v);
    assert next[begin - 2..size] == Pair(v % 100) + now[begin..size];
    assert next[size..] == now[size..];
    assert next[..begin - 2] == now[..begin][..begin - 2];
  }

  /** The last one or two digits, w wide. */
  lemma WrittenLast(now: seq<char>, before: seq<char>, begin: nat, size: nat, v: nat, value: nat, next: seq<char>,
      w: nat)
    requires Written(now, before, begin, size, v, value) && v < 100 && w == |DecimalString(v)| <= begin
    requires next == now[..begin - w] + DecimalString(v) + now[begin..]
    ensures next[begin - w..size] == DecimalString(value)
    ensures next[..begin - w] == before[..begin - w] && next[size..] == before[size..]
  {
    hide DecimalString;
    assert next[begin - w..size] == DecimalString(v) + now[begin..size];
    assert next[size..] == now[size..];
    assert next[..begin - w] == now[..begin][..begin - w];
  }

  method FormatDecimal(out: array<char>, value: nat, size: nat) returns (begin: nat, end: nat)
    requires NumDigits(value) <= size <= out.Length
    modifies out
    ensures end == size && begin == size - NumDigits(value)
    ensures out[begin..end] == DecimalString(value)
    ensures out[..begin] == old(out[..begin]) && out[end..] == old(out[end..])
  {
    hide DecimalString, NumDigits, Pair, Written;
    ghost var before := out[..];
    end := size;
    begin := size;
    var v := value;
    WrittenStart(out[..], size, value);
    while v >= 100
      invariant NumDigits(v) <= begin <= size && size - begin + NumDigits(v) == NumDigits(value)
      invariant Written(out[..], before, begin, size, v, value)
      decreases v
    {
      TwoDigits(v);
      CountPositive(v / 100);
      ghost var now := out[..];
      begin := begin - 2;
      Copy2(out, begin, v % 100);
      WrittenPair(now, before, begin + 2, size, v, value, out[..]);
      v := v / 100;
    }
    begin := LastDigits(out, begin, v, before, size, value);
    assert out[..begin] == before[..begin];
  }

  /** The one or two digits that are left. */
  method LastDigits(out: array<char>, at: nat, v: nat, ghost before: seq<char>, ghost size: nat, ghost value: nat)
    returns (begin: nat)
    requires v < 100 && NumDigits(v) <= at && Written(out[..], before, at, size, v, value)
    modifies out
    ensures begin == at - NumDigits(v) && |before| == out.Length && begin <= size <= out.Length
    ensures out[begin..size] == DecimalString(value)
    ensures out[..begin] == before[..begin] && out[size..] == before[size..]
  {
    hide DecimalString, NumDigits, Pair;
    ghost var now := out[..];
    if v < 10 {
      OneDigit(v);
      begin := at - 1;
      out[begin] := DigitChar(v);
      assert out[..] == now[..begin] + [DigitChar(v)] + now[begin + 1..];
      WrittenLast(now, before, at, size, v, value, out[..], 1);
      return;
    }
    TwoDigits(v);
    begin := at - 2;
    Copy2(out, begin, v);
    assert DecimalString(v) == Pair(v);
    PairLength(v);
    WrittenLast(now, before, at, size, v, value, out[..], 2);
  }

  lemma PairLength(v: nat)
    requires v < 100
    ensures |Pair(v)| == 2
  {}

  lemma CountPositive(v: nat)
    ensures NumDigits(v) >= 1
  {}

  lemma OneDigit(v: nat)
    requires v < 10
    ensures DecimalString(v) == [DigitChar(v)] && NumDigits(v) == 1
  {}

  // ---- parse_nonnegative_int ----

  const INT_MAX: nat := 0x7FFF_FFFF

  /** The end of the digit run that starts at i. */
  function RunEnd(s: seq<char>, i: nat): (e: nat)
    requires i <= |s|
    ensures i <= e <= |s| && AllDigits(s[i..e]) && (e == |s| || !IsDigit(s[e]))
    decreases |s| - i
  {
    if i == |s| || !IsDigit(s[i]) then i
    else
      var e := RunEnd(s, i + 1);
      assert forall k :: 0 < k < e - i ==> s[i..e][k] == s[i + 1..e][k - 1];
      e
  }

  /** One more digit, wrapping: the wrapped prefix is all the loop needs. */
  lemma WrapStep(x: int, d: int)
    ensures (x % BASE * 10 + d) % BASE == (10 * x + d) % BASE
  {
    var q := x / BASE;
    assert 10 * x + d == (x % BASE * 10 + d) + (10 * q) * BASE;
  }

  /** The digits from begin to p have been read into v, which may have wrapped. */
  ghost predicate ReadTo(s: seq<char>, begin: nat, p: nat, v: nat) {
    && begin <= p <= |s| && AllDigits(s[begin..p]) && RunEnd(s, begin) == RunEnd(s, p)
    && v == Denotes(s[begin..p]) % BASE
  }

  lemma ReadStep(s: seq<char>, begin: nat, p: nat, v: nat)
    requires ReadTo(s, begin, p, v) && p < |s| && IsDigit(s[p])
    ensures ReadTo(s, begin, p + 1, (v * 10 + DigitOf(s[p])) % BASE)
  {
    DenotesPush(s[begin..p], s[p]);
    assert s[begin..p + 1] == s[begin..p] + [s[p]];
    WrapStep(Denotes(s[begin..p]), DigitOf(s[p]));
  }

  /** At most nine digits never wrap; ten are judged by the first nine and the last. */
  lemma ReadFits(s: seq<char>, begin: nat, p: nat, v: nat, prev: nat)
    requires begin < p && ReadTo(s, begin, p - 1, prev) && ReadTo(s, begin, p, v)
    ensures 0 <= Denotes(s[begin..p])
    ensures p - begin <= 9 ==> v == Denotes(s[begin..p]) <= INT_MAX
    ensures p - begin == 10 ==> prev * 10 + DigitOf(s[p - 1]) == Denotes(s[begin..p])
  {
    hide Denotes, Pow, RunEnd;
    var run, front := s[begin..p], s[begin..p - 1];
    assert run == front + [s[p - 1]];
    assert s[p - 1] == run[p - 1 - begin];
    DenotesPush(front, s[p - 1]);
    DenotesBound(run);
    DenotesBound(front);
    TenPowers();
    if p - begin <= 9 { PowMonotone(10, p - begin, 9); }
    if p - begin == 10 { PowMonotone(10, p - 1 - begin, 9); }
  }

  /** Reads the digit run at begin; the value, or error_value when it does not fit an int or is too long. */
  method ParseNonnegativeInt(s: seq<char>, begin: nat, errorValue: int) returns (value: int, next: nat)
    requires begin < |s| && IsDigit(s[begin])
    ensures next == RunEnd(s, begin) > begin
    ensures var run := s[begin..next];
            value == if |run| <= 10 && Denotes(run) <= 2147483647 then Denotes(run) else errorValue
  {
    hide Denotes, ReadTo;
    var v: uint32, prev: uint32 := 0, 0;
    var p := begin;
    ReadNothing(s, begin);
    while p == begin || (p < |s| && IsDigit(s[p]))
      invariant begin <= p <= |s| && ReadTo(s, begin, p, v)
      invariant p > begin ==> ReadTo(s, begin, p - 1, prev)
      decreases |s| - p
    {
      ReadStep(s, begin, p, v);
      prev := v;
      v := (v * 10 + DigitOf(s[p])) % BASE;
      p := p + 1;
    }
    var num := p - begin;
    next := p;
    ReadFits(s, begin, p, v, prev);
    ReadAll(s, begin, p, v);
    if num <= 9 {
      value := v;
      return;
    }
    value := if num == 10 && prev * 10 + DigitOf(s[p - 1]) <= INT_MAX then v else errorValue;
  }

  lemma ReadNothing(s: seq<char>, begin: nat)
    requires begin <= |s|
    ensures ReadTo(s, begin, begin, 0)
  {}

  lemma ReadAll(s: seq<char>, begin: nat, p: nat, v: nat)
    requires ReadTo(s, begin, p, v) && (p == |s| || !IsDigit(s[p]))
    ensures p == RunEnd(s, begin)
    ensures 0 <= Denotes(s[begin..p]) < BASE ==> v == Denotes(s[begin..p])
  {}

  /** Printing and reading back, whatever follows the number. */
  lemma ParseInvertsFormat(n: nat, rest: seq<char>)
    requires rest == [] || !IsDigit(rest[0])
    ensures var s := DecimalString(n) + rest;
            && |s| > 0 && IsDigit(s[0]) && RunEnd(s, 0) == NumDigits(n)
            && Denotes(s[0..RunEnd(s, 0)]) == n
            && (n <= INT_MAX ==> NumDigits(n) <= 10)
  {
    var d := DecimalString(n);
    DecimalStringDenotes(n);
    RunOfDigits(d, rest, 0);
    assert (d + rest)[0..|d|] == d;
    if n <= INT_MAX {
      TenPowers();
      NumDigitsBounds(n);
      if NumDigits(n) > 10 { PowMonotone(10, 10, NumDigits(n) - 1); }
    }
  }

  lemma {:induction false} RunOfDigits(d: seq<char>, rest: seq<char>, i: nat)
    requires i <= |d| && AllDigits(d) && (rest == [] || !IsDigit(rest[0]))
    ensures RunEnd(d + rest, i) == |d|
    decreases |d| - i
  {
    if i < |d| {
      assert (d + rest)[i] == d[i];
      RunOfDigits(d, rest, i + 1);
    } else if rest != [] {
      assert (d + rest)[i] == rest[0];
    }
  }
}
