/** Divisibility by powers of five through modular inverses, and trailing zero removal. */
module TrailingZeros {
  import opened Arith
  import opened Limbs
  import opened BigintClass

  // ---- The modular-inverse test ----

  /** x times the inverse of d, modulo m, is at most (m - 1) / d exactly when d divides x, and is then the quotient. */
  lemma InverseTest(x: nat, m: nat, inv: nat, d: nat)
    requires x < m && d > 0 && m > 1 && (inv * d) % m == 1
    ensures (x * inv) % m <= (m - 1) / d <==> x % d == 0
    ensures x % d == 0 ==> (x * inv) % m == x / d
  {
    if x % d == 0 {
      DivisibleCase(x, m, inv, d, x / d);
    } else if (x * inv) % m <= (m - 1) / d {
      SmallCase(x, m, inv, d, (x * inv) % m);
    }
  }

  lemma DivisibleCase(x: nat, m: nat, inv: nat, d: nat, c: nat)
    requires x < m && d > 0 && m > 1 && (inv * d) % m == 1 && x == c * d
    ensures (x * inv) % m == c && c <= (m - 1) / d
  {
    var j := (inv * d) / m;
    assert inv * d == j * m + 1;
    MulGrows(d, c);
    assert c <= x;
    assert x * inv == (c * j) * m + c by {
      assert (c * d) * inv == c * (inv * d);
      assert c * (j * m + 1) == (c * j) * m + c;
    }
    DivModUnique(x * inv, m, c * j, c);
    QuotientAtLeast(m - 1, d, c);
  }

  lemma QuotientAtLeast(n: nat, d: nat, c: nat)
    requires d > 0 && c * d <= n
    ensures c <= n / d
  {
    MulDistrib(n / d, 1, d);
    if n / d < c {
      MulMonotone(n / d + 1, c, d);
    }
  }

  lemma QuotientAtMost(n: nat, d: nat, q: nat)
    requires d > 0 && q <= n / d
    ensures q * d <= n
  {
    MulMonotone(q, n / d, d);
  }

  lemma SmallCase(x: nat, m: nat, inv: nat, d: nat, q: nat)
    requires x < m && d > 0 && m > 1 && (inv * d) % m == 1
    requires q == (x * inv) % m && q <= (m - 1) / d
    ensures x == q * d && x % d == 0
  {
    var j, k := (inv * d) / m, (x * inv) / m;
    QuotientAtMost(m - 1, d, q);
    MulMonotone(0, q, d);
    TwoRoutes(x, inv, d, j, k, m, q);
    SameRemainder(m, x * j, x, k * d, q * d);
    DivModUnique(x, d, q, 0);
  }

  /** x * inv * d computed both ways round. */
  lemma TwoRoutes(x: int, inv: int, d: int, j: int, k: int, m: int, q: int)
    requires inv * d == j * m + 1 && x * inv == k * m + q
    ensures (x * j) * m + x == (k * d) * m + q * d
  {
    calc {
      (x * j) * m + x;
      { MulAssoc(x, j, m); }
      x * (j * m) + x;
      x * (j * m + 1);
      x * (inv * d);
      { MulAssoc(x, inv, d); }
      (k * m + q) * d;
      { MulDistrib(k * m, q, d); MulSwap(k, m, d, 1); }
      (k * d) * m + q * d;
    }
  }

  lemma SameRemainder(m: int, a: int, x: int, b: int, y: int)
    requires m > 0 && a * m + x == b * m + y && 0 <= x < m && 0 <= y < m
    ensures x == y
  {
    DivModUnique(a * m + x, m, a, x);
    DivModUnique(a * m + x, m, b, y);
  }

  // ---- The divisibility tables ----

  /** One row: the inverse of 5^k and the largest quotient. */
  datatype DivTest = DivTest(modInv: nat, maxQuotient: nat)

  const TABLE32: seq<DivTest> := [
    DivTest(0x00000001, 0xffffffff), DivTest(0xcccccccd, 0x33333333), DivTest(0xc28f5c29, 0x0a3d70a3),
    DivTest(0x26e978d5, 0x020c49ba), DivTest(0x3afb7e91, 0x0068db8b), DivTest(0x0bcbe61d, 0x0014f8b5),
    DivTest(0x68c26139, 0x000431bd), DivTest(0xae8d46a5, 0x0000d6bf), DivTest(0x22e90e21, 0x00002af3),
    DivTest(0x3a2e9c6d, 0x00000897), DivTest(0x3ed61f49, 0x000001b7)
  ]

  const TABLE64: seq<DivTest> := [
    DivTest(0x0000000000000001, 0xffffffffffffffff), DivTest(0xcccccccccccccccd, 0x3333333333333333),
    DivTest(0x8f5c28f5c28f5c29, 0x0a3d70a3d70a3d70), DivTest(0x1cac083126e978d5, 0x020c49ba5e353f7c),
    DivTest(0xd288ce703afb7e91, 0x0068db8bac710cb2), DivTest(0x5d4e8fb00bcbe61d, 0x0014f8b588e368f0),
    DivTest(0x790fb65668c26139, 0x000431bde82d7b63), DivTest(0xe5032477ae8d46a5, 0x0000d6bf94d5e57a),
    DivTest(0xc767074b22e90e21, 0x00002af31dc46118), DivTest(0x8e47ce423a2e9c6d, 0x0000089705f4136b),
    DivTest(0x4fa7f60d3ed61f49, 0x000001b7cdfd9d7b), DivTest(0x0fee64690c913975, 0x00000057f5ff85e5),
    DivTest(0x3662e0e1cf503eb1, 0x000000119799812d), DivTest(0xa47a2cf9f6433fbd, 0x0000000384b84d09),
    DivTest(0x54186f653140a659, 0x00000000b424dc35), DivTest(0x7738164770402145, 0x0000000024075f3d),
    DivTest(0xe4a4d1417cd9a041, 0x000000000734aca5), DivTest(0xc75429d9e5c5200d, 0x000000000170ef54),
    DivTest(0xc1773b91fac10669, 0x000000000049c977), DivTest(0x26b172506559ce15, 0x00000000000ec1e4),
    DivTest(0xd489e3a9addec2d1, 0x000000000002f394), DivTest(0x90e860bb892c8d5d, 0x000000000000971d),
    DivTest(0x502e79bf1b6f4f79, 0x0000000000001e39), DivTest(0xdcd618596be30fe5, 0x000000000000060b)
  ]

  /** The row for k does what its name says, for words of size m. */
  ghost predicate GoodRow(row: DivTest, m: nat, k: nat)
    requires m > 1
  {
    Pow(5, k) > 0 && (row.modInv * Pow(5, k)) % m == 1 && row.maxQuotient == (m - 1) / Pow(5, k)
  }

  predicate DivisibleByPowerOf5Word32(x: uint32, k: nat)
    requires k <= 10
  {
    (x * TABLE32[k].modInv) % BASE <= TABLE32[k].maxQuotient
  }

  predicate DivisibleByPowerOf5Word64(x: uint64, k: nat)
    requires k <= 23
  {
    (x * TABLE64[k].modInv) % TWO64 <= TABLE64[k].maxQuotient
  }

  lemma Word32TestExact(x: uint32, k: nat)
    requires k <= 10
    ensures Pow(5, k) > 0 && (DivisibleByPowerOf5Word32(x, k) <==> x % Pow(5, k) == 0)
  {
    GoodTable32(k);
    InverseTest(x, BASE, TABLE32[k].modInv, Pow(5, k));
  }

  lemma Word64TestExact(x: uint64, k: nat)
    requires k <= 23
    ensures Pow(5, k) > 0 && (DivisibleByPowerOf5Word64(x, k) <==> x % Pow(5, k) == 0)
  {
    GoodTable64(k);
    InverseTest(x, TWO64, TABLE64[k].modInv, Pow(5, k));
  }

  /** A row is good when one multiplication says so. */
  lemma RowByProduct(row: DivTest, m: nat, k: nat, p: nat, j: nat)
    requires p == Pow(5, k) > 0 && m > 1 && row.modInv * p == j * m + 1
    requires row.maxQuotient * p <= m - 1 < row.maxQuotient * p + p
    ensures GoodRow(row, m, k)
  {
    DivModUnique(row.modInv * p, m, j, 1);
    DivModUnique(m - 1, p, row.maxQuotient, m - 1 - row.maxQuotient * p);
  }

  lemma GoodTable32(k: nat)
    requires k < |TABLE32|
    ensures GoodRow(TABLE32[k], BASE, k)
  {
    FivePowers();
    if k == 0 { RowByProduct(TABLE32[0], BASE, 0, 1, 0); }
    else if k == 1 { RowByProduct(TABLE32[1], BASE, 1, 5, 4); }
    else if k == 2 { RowByProduct(TABLE32[2], BASE, 2, 25, 19); }
    else if k == 3 { RowByProduct(TABLE32[3], BASE, 3, 125, 19); }
    else if k == 4 { RowByProduct(TABLE32[4], BASE, 4, 625, 144); }
    else if k == 5 { RowByProduct(TABLE32[5], BASE, 5, 3125, 144); }
    else if k == 6 { RowByProduct(TABLE32[6], BASE, 6, 15625, 6394); }
    else if k == 7 { RowByProduct(TABLE32[7], BASE, 7, 78125, 53269); }
    else if k == 8 { RowByProduct(TABLE32[8], BASE, 8, 390625, 53269); }
    else if k == 9 { RowByProduct(TABLE32[9], BASE, 9, 1953125, 443894); }
    else if k == 10 { RowByProduct(TABLE32[10], BASE, 10, 9765625, 2397019); }
  }

  lemma GoodTable64(k: nat)
    requires k < |TABLE64|
    ensures GoodRow(TABLE64[k], TWO64, k)
  {
    FivePowers();
    if k == 0 { RowByProduct(TABLE64[0], TWO64, 0, 1, 0); }
    else if k == 1 { RowByProduct(TABLE64[1], TWO64, 1, 5, 4); }
    else if k == 2 { RowByProduct(TABLE64[2], TWO64, 2, 25, 14); }
    else if k == 3 { RowByProduct(TABLE64[3], TWO64, 3, 125, 14); }
    else if k == 4 { RowByProduct(TABLE64[4], TWO64, 4, 625, 514); }
    else if k == 5 { RowByProduct(TABLE64[5], TWO64, 5, 3125, 1139); }
    else if k == 6 { RowByProduct(TABLE64[6], TWO64, 6, 15625, 7389); }
    else if k == 7 { RowByProduct(TABLE64[7], TWO64, 7, 78125, 69889); }
    else if k == 8 { RowByProduct(TABLE64[8], TWO64, 8, 390625, 304264); }
    else if k == 9 { RowByProduct(TABLE64[9], TWO64, 9, 1953125, 1085514); }
    else if k == 10 { RowByProduct(TABLE64[10], TWO64, 10, 9765625, 3038639); }
    else if k == 11 { RowByProduct(TABLE64[11], TWO64, 11, 48828125, 3038639); }
    else if k == 12 { RowByProduct(TABLE64[12], TWO64, 12, 244140625, 51866764); }
    else if k == 13 { RowByProduct(TABLE64[13], TWO64, 13, 1220703125, 784288639); }
    else if k == 14 { RowByProduct(TABLE64[14], TWO64, 14, 6103515625, 2004991764); }
    else if k == 15 { RowByProduct(TABLE64[15], TWO64, 15, 30517578125, 14212023014); }
    else if k == 16 { RowByProduct(TABLE64[16], TWO64, 16, 152587890625, 136282335514); }
    else if k == 17 { RowByProduct(TABLE64[17], TWO64, 17, 762939453125, 594046007389); }
    else if k == 18 { RowByProduct(TABLE64[18], TWO64, 18, 3814697265625, 2882864366764); }
    else if k == 19 { RowByProduct(TABLE64[19], TWO64, 19, 19073486328125, 2882864366764); }
    else if k == 20 { RowByProduct(TABLE64[20], TWO64, 20, 95367431640625, 79176809679264); }
    else if k == 21 { RowByProduct(TABLE64[21], TWO64, 21, 476837158203125, 269911672960514); }
    else if k == 22 { RowByProduct(TABLE64[22], TWO64, 22, 2384185791015625, 746748831163639); }
    else if k == 23 { RowByProduct(TABLE64[23], TWO64, 23, 11920928955078125, 10283491995226139); }
  }

  lemma FivePowers()
    ensures Pow(5, 0) == 1
    ensures Pow(5, 1) == 5
    ensures Pow(5, 2) == 25
    ensures Pow(5, 3) == 125
    ensures Pow(5, 4) == 625
    ensures Pow(5, 5) == 3125
    ensures Pow(5, 6) == 15625
    ensures Pow(5, 7) == 78125
    ensures Pow(5, 8) == 390625
    ensures Pow(5, 9) == 1953125
    ensures Pow(5, 10) == 9765625
    ensures Pow(5, 11) == 48828125
    ensures Pow(5, 12) == 244140625
    ensures Pow(5, 13) == 1220703125
    ensures Pow(5, 14) == 6103515625
    ensures Pow(5, 15) == 30517578125
    ensures Pow(5, 16) == 152587890625
    ensures Pow(5, 17) == 762939453125
    ensures Pow(5, 18) == 3814697265625
    ensures Pow(5, 19) == 19073486328125
    ensures Pow(5, 20) == 95367431640625
    ensures Pow(5, 21) == 476837158203125
    ensures Pow(5, 22) == 2384185791015625
    ensures Pow(5, 23) == 11920928955078125
  {}

  // ---- Removing trailing zeros ----

  /** The number of trailing zero bits. */
  function Ctz(n: nat): nat
    requires n > 0
  {
    if n % 2 == 1 then 0 else 1 + Ctz(n / 2)
  }

  lemma {:induction false} CtzSplit(n: nat) returns (c: nat)
    requires n > 0
    ensures n == Pow(2, Ctz(n)) * c && c % 2 == 1
  {
    if n % 2 == 1 {
      c := n;
    } else {
      c := CtzSplit(n / 2);
      MulAssoc(2, Pow(2, Ctz(n / 2)), c);
    }
  }

  /** t binary zeros, all of them unless the cap cut the count short. */
  ghost predicate Twos(n: nat, t: nat, cap: nat, c: nat) {
    t <= cap && n == Pow(2, t) * c && (t < cap ==> c % 2 == 1)
  }

  lemma CappedCtz(n: nat, cap: nat) returns (c: nat)
    requires n > 0
    ensures Twos(n, if Ctz(n) > cap then cap else Ctz(n), cap, c)
  {
    c := CtzSplit(n);
    if Ctz(n) > cap {
      PowAdd(2, cap, Ctz(n) - cap);
      MulAssoc(Pow(2, cap), Pow(2, Ctz(n) - cap), c);
      c := Pow(2, Ctz(n) - cap) * c;
    }
  }

  /** n is m with s zeros appended, and m ends in no zero unless the cap was reached. */
  ghost predicate Stripped(n: nat, m: nat, s: nat, cap: nat) {
    n == m * Pow(10, s) && s <= cap && (s < cap ==> m % 10 != 0)
  }

  /** s factors of five are out of n; the word v still has t binary zeros. */
  ghost predicate Fives(n: nat, t: nat, s: nat, v: nat, w: nat) {
    n == Pow(5, s) * v && v == Pow(2, t) * w
  }

  lemma {:induction false} OddDivides(t: nat, w: nat, d: nat)
    requires d % 2 == 1 && (Pow(2, t) * w) % d == 0
    ensures w % d == 0
  {
    if t > 0 {
      var x := Pow(2, t - 1) * w;
      MulAssoc(2, Pow(2, t - 1), w);
      HalfDivides(x, d, (2 * x) / d);
      OddDivides(t - 1, w, d);
    }
  }

  lemma HalfDivides(x: nat, d: nat, y: nat)
    requires d % 2 == 1 && 2 * x == d * y
    ensures x % d == 0
  {
    var e, z := d / 2, y / 2;
    assert d * y == 2 * (e * y) + y by { MulDistrib(2 * e, 1, y); MulAssoc(2, e, y); }
    assert y == 2 * z;
    assert d * y == 2 * (d * z) by { assert d * (2 * z) == 2 * (d * z); }
    assert z * d == d * z;
    DivModUnique(x, d, z, 0);
  }

  /** Dividing the word by a power of five keeps the split. */
  lemma FivesStep(n: nat, t: nat, s: nat, v: nat, w: nat, k: nat, d: nat, v': nat) returns (w': nat)
    requires Fives(n, t, s, v, w) && d == Pow(5, k) > 0 && v == d * v'
    ensures w == d * w' && Fives(n, t, s + k, v', w')
  {
    hide Pow;
    FiveOdd(k);
    DivModUnique(v, d, v', 0);
    OddDivides(t, w, d);
    w' := w / d;
    assert w == d * w';
    assert Pow(2, t) * (d * w') == d * (Pow(2, t) * w') by { MulSwap(Pow(2, t), 1, d, w'); }
    CancelFactor(d, v', Pow(2, t) * w');
    PowAdd(5, s, k);
    MulAssoc(Pow(5, s), d, v');
  }

  lemma CancelFactor(d: nat, a: nat, b: nat)
    requires d > 0 && d * a == d * b
    ensures a == b
  {}

  /** The final shift: no zero is left unless the count is capped. */
  lemma FivesDone(n: nat, t: nat, cap: nat, c: nat, s: nat, v: nat, w: nat) returns (m: nat)
    requires Fives(n, t, s, v, w) && Twos(n, t, cap, c) && s <= t
    requires s == t || v % 5 != 0
    ensures Shr(v, s) == m && m <= v && Stripped(n, m, s, cap)
  {
    hide Pow;
    PowPositive(2, s);
    PowAdd(2, s, t - s);
    m := Pow(2, t - s) * w;
    MulAssoc(Pow(2, s), Pow(2, t - s), w);
    assert v == m * Pow(2, s);
    DivModUnique(v, Pow(2, s), m, 0);
    MulGrows(Pow(2, s), m);
    TensAreBoth(n, s, v, m);
    if s < cap {
      NoZeroLeft(n, t, cap, c, s, v, w, m);
    }
  }

  lemma NoZeroLeft(n: nat, t: nat, cap: nat, c: nat, s: nat, v: nat, w: nat, m: nat)
    requires Fives(n, t, s, v, w) && Twos(n, t, cap, c) && s <= t && s < cap
    requires s == t || v % 5 != 0
    requires v == m * Pow(2, s) && m == Pow(2, t - s) * w
    ensures m % 10 != 0
  {
    hide Pow;
    if s == t {
      OddRest(n, t, c, w);
      ShiftNothing(w);
    } else if m % 5 == 0 {
      MultipleOfFive(m, Pow(2, s), v);
    }
  }

  lemma TensAreBoth(n: nat, s: nat, v: nat, m: nat)
    requires n == Pow(5, s) * v && v == m * Pow(2, s)
    ensures n == m * Pow(10, s)
  {
    PowBaseMul(5, 2, s);
    assert Pow(5, s) * (m * Pow(2, s)) == m * (Pow(5, s) * Pow(2, s));
  }

  lemma ShiftNothing(w: nat)
    ensures Pow(2, 0) * w == w
  {}

  lemma OddRest(n: nat, t: nat, c: nat, w: nat)
    requires n == Pow(5, t) * (Pow(2, t) * w) && n == Pow(2, t) * c && c % 2 == 1
    ensures w % 2 == 1
  {
    PowPositive(2, t);
    assert Pow(5, t) * (Pow(2, t) * w) == Pow(2, t) * (Pow(5, t) * w);
    CancelFactor(Pow(2, t), c, Pow(5, t) * w);
    OddFactor(Pow(5, t), w);
  }

  lemma OddFactor(a: nat, w: nat)
    requires (a * w) % 2 == 1
    ensures w % 2 == 1
  {
    assert w == 2 * (w / 2) + w % 2;
    assert a * w == 2 * (a * (w / 2)) + a * (w % 2);
  }

  lemma MultipleOfFive(m: nat, p: nat, v: nat)
    requires m % 5 == 0 && v == m * p
    ensures v % 5 == 0
  {
    assert m == 5 * (m / 5);
    MulAssoc(5, m / 5, p);
  }

  const MOD_INV1: nat := 0xcccccccd
  const MAX_QUOTIENT1: nat := 0x33333333
  const MOD_INV2: nat := 0xc28f5c29
  const MAX_QUOTIENT2: nat := 0x0a3d70a3
  const MOD_INV8: nat := 0xc767074b22e90e21
  const MAX_QUOTIENT8: nat := 0x00002af31dc46118

  /** Wrapping multiplication by the inverse of 5, of 25 and of 5^8. */
  function MulInv1(x: uint32): (q: uint32) { (x * MOD_INV1) % BASE }

  function MulInv2(x: uint32): (q: uint32) { (x * MOD_INV2) % BASE }

  function MulInv8(x: uint64): (q: uint64) { (x * MOD_INV8) % TWO64 }

  lemma FifthTest(x: uint32)
    ensures MulInv1(x) <= MAX_QUOTIENT1 <==> x % 5 == 0
    ensures x % 5 == 0 ==> x == 5 * MulInv1(x)
  {
    InverseTest(x, BASE, MOD_INV1, 5);
  }

  lemma TwentyFifthTest(x: uint32)
    ensures MulInv2(x) <= MAX_QUOTIENT2 <==> x % 25 == 0
    ensures x % 25 == 0 ==> x == 25 * MulInv2(x)
  {
    InverseTest(x, BASE, MOD_INV2, 25);
  }

  lemma EighthPowerTest(x: uint64)
    ensures MulInv8(x) <= MAX_QUOTIENT8 <==> x % 390625 == 0
    ensures x % 390625 == 0 ==> x == 390625 * MulInv8(x)
  {
    InverseTest(x, TWO64, MOD_INV8, 390625);
  }

  /** The single-precision version: two zeros at a time, then one. */
  method RemoveTrailingZeros32(n0: uint32) returns (n: uint32, s: nat)
    requires n0 > 0
    ensures Stripped(n0, n, s, 7)
  {
    hide Pow, Fives, Twos, Stripped, MulInv1, MulInv2, Shr, Ctz;
    var t: int := Ctz(n0);
    if t > 7 {
      t := 7;
    }
    ghost var c := CappedCtz(n0, 7);
    ghost var w: nat := c;
    FivesStart(n0, t, 7, c);
    FivePowers();
    s, n := 0, n0;
    ghost var stuck := false;
    while s < t - 1
      invariant 0 <= s <= t && Fives(n0, t, s, n, w)
      invariant !stuck
    {
      TwentyFifthTest(n);
      if MulInv2(n) > MAX_QUOTIENT2 {
        stuck := true;
        break;
      }
      w := FivesStep(n0, t, s, n, w, 2, 25, MulInv2(n));
      n := MulInv2(n);
      s := s + 2;
    }
    FifthTest(n);
    if s < t && MulInv1(n) <= MAX_QUOTIENT1 {
      w := FivesStep(n0, t, s, n, w, 1, 5, MulInv1(n));
      n := MulInv1(n);
      s := s + 1;
    }
    ghost var m := FivesDone(n0, t, 7, c, s, n, w);
    n := Shr(n, s);
  }

  lemma FivesStart(n: nat, t: nat, cap: nat, c: nat)
    requires Twos(n, t, cap, c)
    ensures Fives(n, t, 0, n, c)
  {}

  // ---- The double-precision version ----

  const TEN8: nat := 100000000

  /** Divisible by 10^8: the count goes on with the quotient. */
  lemma EightOut(n: nat, t: nat, c: nat, candidate: nat) returns (u: nat, c': nat)
    requires Twos(n, t, 16, c) && t >= 8 && n == 390625 * candidate
    ensures candidate == 256 * u && n == u * Pow(10, 8) && Twos(u, t - 8, 8, c')
  {
    hide Pow;
    FivePowers();
    EighthPowers();
    c' := FivesStep(n, t, 0, n, c, 8, 390625, candidate) by {
      FivesStart(n, t, 16, c);
    }
    PowAdd(2, 8, t - 8);
    u := Pow(2, t - 8) * c';
    MulAssoc(256, Pow(2, t - 8), c');
    assert c % 2 == c' % 2;
  }

  lemma EighthPowers()
    ensures Pow(2, 8) == 256 && Pow(10, 8) == TEN8
  {}

  lemma EightMore(n: nat, u: nat, m: nat, s: nat)
    requires n == u * Pow(10, 8) && Stripped(u, m, s, 8)
    ensures Stripped(n, m, s + 8, 16)
  {
    hide Pow;
    PowAdd(10, s, 8);
    MulAssoc(m, Pow(10, s), Pow(10, 8));
  }

  /** Quotient and remainder by 10^8 survive the 32-bit arithmetic. */
  lemma HalvesOf(n: nat, q: nat, r: nat)
    requires n < 100000000000000000
    requires q == (n / TEN8) % BASE && r == ((n - (TEN8 * q) % BASE) % TWO64) % BASE
    ensures n == TEN8 * q + r && r < TEN8
  {
    var hi := (TEN8 * q) / BASE;
    assert TEN8 * q == BASE * hi + (TEN8 * q) % BASE;
    DivModUnique(n - (TEN8 * q) % BASE, BASE, hi, n % TEN8);
  }

  /** Binary zeros of the remainder, as many as the whole has up to eight. */
  lemma RemainderTwos(n: nat, t: nat, c: nat, q: nat, r: nat) returns (c': nat)
    requires Twos(n, t, 16, c) && n == TEN8 * q + r
    ensures Twos(r, if t > 8 then 8 else t, 8, c')
  {
    hide Pow;
    EighthPowers();
    var t' := if t > 8 then 8 else t;
    PowAdd(2, t', t - t');
    PowAdd(2, t', 8 - t');
    var p, x, y := Pow(2, t'), Pow(2, t - t') * c, (Pow(2, 8 - t') * 390625) * q;
    MulAssoc(p, Pow(2, t - t'), c);
    MulAssoc(p, Pow(2, 8 - t') * 390625, q);
    MulAssoc(p, Pow(2, 8 - t'), 390625);
    PowPositive(2, t');
    assert r == p * (x - y) by { MulDistribSub(x, y, p); }
    NonNegative(p, x - y, r);
    c' := x - y;
    if t' < 8 {
      PowNext(2, 0);
      MulAssoc(Pow(2, 8 - t'), 390625, q);
      EvenPower(8 - t', 390625 * q);
      OddDifference(c, y);
    }
    TwosIntro(r, t', 8, c');
  }

  lemma OddDifference(c: int, y: int)
    requires c % 2 == 1 && y % 2 == 0
    ensures (c - y) % 2 == 1
  {}

  lemma TwosIntro(n: nat, t: nat, cap: nat, c: nat)
    requires t <= cap && n == Pow(2, t) * c && (t < cap ==> c % 2 == 1)
    ensures Twos(n, t, cap, c)
  {}

  lemma NonNegative(p: nat, d: int, r: nat)
    requires p > 0 && r == p * d
    ensures d >= 0
  {
    assert p * d == -((-d) * p);
    if d < 0 { MulMonotone(1, -d, p); }
  }

  lemma EvenPower(k: nat, x: nat)
    requires k > 0
    ensures (Pow(2, k) * x) % 2 == 0
  {
    hide Pow;
    PowNext(2, k - 1);
    MulAssoc(2, Pow(2, k - 1), x);
    EvenTwice(Pow(2, k - 1) * x);
  }

  lemma EvenTwice(y: int)
    ensures (2 * y) % 2 == 0
  {}

  lemma TenTimes(y: int)
    ensures (10 * y) % 10 == 0
  {}

  /** k zeros of the remainder are zeros of the whole, and the last digit is the remainder's. */
  lemma StageDone(n: nat, q: nat, r0: nat, m: nat, k: nat)
    requires n == TEN8 * q + r0 && k < 8 && Stripped(r0, m, k, 8)
    ensures Stripped(n, m + q * Pow(10, 8 - k), k, 16)
  {
    hide Pow;
    EighthPowers();
    PowAdd(10, 8 - k, k);
    JoinDigits(q, r0, m, Pow(10, 8 - k), Pow(10, k));
    TenMultiple(q, 8 - k);
    SameLastDigit(m, q * Pow(10, 8 - k));
  }

  lemma JoinDigits(q: int, r0: int, m: int, h: int, e: int)
    requires r0 == m * e && TEN8 == h * e
    ensures TEN8 * q + r0 == (m + q * h) * e
  {
    MulDistrib(m, q * h, e);
    MulAssoc(q, h, e);
  }

  lemma SameLastDigit(m: nat, high: nat)
    requires high % 10 == 0
    ensures (m + high) % 10 == m % 10
  {}

  lemma TenMultiple(q: nat, k: nat)
    requires k > 0
    ensures (q * Pow(10, k)) % 10 == 0
  {
    hide Pow;
    PowNext(10, k - 1);
    assert q * (10 * Pow(10, k - 1)) == 10 * (q * Pow(10, k - 1)) by { MulSwap(q, 1, 10, Pow(10, k - 1)); }
    TenTimes(q * Pow(10, k - 1));
  }

  /** The value of one return of the cascade: shifted remainder plus the quotient at its place. */
  function Joined(remainder: uint32, quotient: uint32, k: nat): uint64
    requires k <= 8
  {
    (Shr(remainder, k) + quotient * Pow(10, 8 - k)) % TWO64
  }

  /** What holds when stage k of the cascade is reached. */
  ghost predicate Stage(n: nat, q: nat, r0: nat, t: nat, k: nat, r: nat, w: nat, c: nat) {
    && n == TEN8 * q + r0 && n < TWO64 && k < 8
    && k <= (if t > 8 then 8 else t)
    && Twos(r0, if t > 8 then 8 else t, 8, c) && Fives(r0, if t > 8 then 8 else t, k, r, w)
  }

  lemma StageReturns(n: nat, q: uint32, r0: nat, t: nat, k: nat, r: uint32, w: nat, c: nat)
    requires Stage(n, q, r0, t, k, r, w, c) && (t == k || r % 5 != 0)
    ensures Stripped(n, Joined(r, q, k), k, 16)
  {
    hide Pow, Fives, Twos, Shr;
    var m := FivesDone(r0, if t > 8 then 8 else t, 8, c, k, r, w);
    StageDone(n, q, r0, m, k);
    JoinedFits(n, m + q * Pow(10, 8 - k), k);
  }

  lemma JoinedFits(n: nat, x: nat, k: nat)
    requires n < TWO64 && Stripped(n, x, k, 16)
    ensures x % TWO64 == x
  {
    PowPositive(10, k);
    MulGrows(Pow(10, k), x);
  }

  lemma StageNext(n: nat, q: nat, r0: nat, t: nat, k: nat, r: nat, w: nat, c: nat, r': nat) returns (w': nat)
    requires Stage(n, q, r0, t, k, r, w, c) && k < 7 && t != k && r == 5 * r'
    ensures Stage(n, q, r0, t, k + 1, r', w', c)
  {
    hide Pow, Twos, Fives;
    FivePowers();
    w' := FivesStep(r0, if t > 8 then 8 else t, k, r, w, 1, 5, r');
  }

  /** The double-precision version: 10^8 at once if possible, else zero by zero on the remainder. */
  method RemoveTrailingZeros64(n0: uint64) returns (n: uint64, s: nat)
    requires 0 < n0 < 100000000000000000
    ensures Stripped(n0, n, s, 16)
  {
    hide Pow, Fives, Twos, Stripped, MulInv1, MulInv8, Shr, Ctz;
    var t: int := Ctz(n0);
    if t > 16 {
      t := 16;
    }
    ghost var c0 := CappedCtz(n0, 16);
    EighthPowerTest(n0);
    if t >= 8 {
      var candidate := MulInv8(n0);
      if candidate <= MAX_QUOTIENT8 {
        ghost var u, c := EightOut(n0, t, c0, candidate);
        QuotientFits(n0, u, candidate);
        n, s := CountOn((candidate / 256) % BASE, t, c);
        EightMore(n0, u, n, s - 8);
        return;
      }
    }
    n, s := Cascade(n0, t, c0);
  }

  /** 10^8 divides out, so the loop goes on with a 32-bit quotient that has t - 8 binary zeros. */
  method CountOn(u: uint32, t: nat, ghost c: nat) returns (n: uint32, s: nat)
    requires t >= 8 && Twos(u, t - 8, 8, c)
    ensures s >= 8 && Stripped(u, n, s - 8, 8)
  {
    hide Pow, Fives, Twos, Stripped, MulInv1, Shr;
    ghost var w: nat := c;
    FivesStart(u, t - 8, 8, c);
    FivePowers();
    var quotient := u;
    s := 8;
    ghost var stuck := false;
    while s < t
      invariant 8 <= s <= t && Fives(u, t - 8, s - 8, quotient, w) && !stuck
    {
      FifthTest(quotient);
      if MulInv1(quotient) > MAX_QUOTIENT1 {
        stuck := true;
        break;
      }
      w := FivesStep(u, t - 8, s - 8, quotient, w, 1, 5, MulInv1(quotient));
      quotient := MulInv1(quotient);
      s := s + 1;
    }
    ghost var m := FivesDone(u, t - 8, 8, c, s - 8, quotient, w);
    n := Shr(quotient, s - 8);
  }

  lemma QuotientFits(n: nat, u: nat, candidate: nat)
    requires n < 100000000000000000 && n == u * Pow(10, 8) && candidate == 256 * u
    ensures u == (candidate / 256) % BASE
  {
    EighthPowers();
  }

  /** Not divisible by 10^8: at most seven zeros, all in the last eight digits. */
  method Cascade(n0: uint64, t: nat, ghost c0: nat) returns (n: uint64, s: nat)
    requires 0 < n0 < 100000000000000000 && Twos(n0, t, 16, c0)
    requires t >= 8 ==> n0 % 390625 != 0
    ensures Stripped(n0, n, s, 16)
  {
    hide Pow, Fives, Twos, Stripped, MulInv1, Shr, Joined;
    var quotient: uint32 := (n0 / TEN8) % BASE;
    var remainder: uint32 := ((n0 - (TEN8 * quotient) % BASE) % TWO64) % BASE;
    HalvesOf(n0, quotient, remainder);
    ghost var r0 := remainder;
    ghost var c := RemainderTwos(n0, t, c0, quotient, remainder);
    ghost var w: nat := c;
    FivesStart(r0, if t > 8 then 8 else t, 8, c);
    FifthTest(remainder);
    if t == 0 || MulInv1(remainder) > MAX_QUOTIENT1 {
      StageReturns(n0, quotient, r0, t, 0, remainder, w, c);
      JoinedWhole(n0, quotient, r0);
      return n0, 0;
    }
    w := StageNext(n0, quotient, r0, t, 0, remainder, w, c, MulInv1(remainder));
    remainder := MulInv1(remainder);
    FifthTest(remainder);
    if t == 1 || MulInv1(remainder) > MAX_QUOTIENT1 {
      StageReturns(n0, quotient, r0, t, 1, remainder, w, c);
      return Joined(remainder, quotient, 1), 1;
    }
    w := StageNext(n0, quotient, r0, t, 1, remainder, w, c, MulInv1(remainder));
    remainder := MulInv1(remainder);
    FifthTest(remainder);
    if t == 2 || MulInv1(remainder) > MAX_QUOTIENT1 {
      StageReturns(n0, quotient, r0, t, 2, remainder, w, c);
      return Joined(remainder, quotient, 2), 2;
    }
    w := StageNext(n0, quotient, r0, t, 2, remainder, w, c, MulInv1(remainder));
    remainder := MulInv1(remainder);
    FifthTest(remainder);
    if t == 3 || MulInv1(remainder) > MAX_QUOTIENT1 {
      StageReturns(n0, quotient, r0, t, 3, remainder, w, c);
      return Joined(remainder, quotient, 3), 3;
    }
    w := StageNext(n0, quotient, r0, t, 3, remainder, w, c, MulInv1(remainder));
    remainder := MulInv1(remainder);
    FifthTest(remainder);
    if t == 4 || MulInv1(remainder) > MAX_QUOTIENT1 {
      StageReturns(n0, quotient, r0, t, 4, remainder, w, c);
      return Joined(remainder, quotient, 4), 4;
    }
    w := StageNext(n0, quotient, r0, t, 4, remainder, w, c, MulInv1(remainder));
    remainder := MulInv1(remainder);
    FifthTest(remainder);
    if t == 5 || MulInv1(remainder) > MAX_QUOTIENT1 {
      StageReturns(n0, quotient, r0, t, 5, remainder, w, c);
      return Joined(remainder, quotient, 5), 5;
    }
    w := StageNext(n0, quotient, r0, t, 5, remainder, w, c, MulInv1(remainder));
    remainder := MulInv1(remainder);
    FifthTest(remainder);
    if t == 6 || MulInv1(remainder) > MAX_QUOTIENT1 {
      StageReturns(n0, quotient, r0, t, 6, remainder, w, c);
      return Joined(remainder, quotient, 6), 6;
    }
    w := StageNext(n0, quotient, r0, t, 6, remainder, w, c, MulInv1(remainder));
    remainder := MulInv1(remainder);
    LastStage(n0, quotient, r0, t, remainder, w, c);
    StageReturns(n0, quotient, r0, t, 7, remainder, w, c);
    return Joined(remainder, quotient, 7), 7;
  }

  /** Seven fives out of a number without an eighth. */
  lemma LastStage(n: nat, q: nat, r0: nat, t: nat, r: nat, w: nat, c: nat)
    requires Stage(n, q, r0, t, 7, r, w, c)
    requires t >= 8 ==> n % 390625 != 0
    ensures t == 7 || r % 5 != 0
  {
    hide Pow, Twos;
    FivePowers();
    assert r0 == 78125 * r;
    assert n == 390625 * (256 * q + r / 5) + 78125 * (r % 5);
  }

  lemma JoinedWhole(n: nat, q: uint32, r0: uint32)
    requires n < TWO64 && n == TEN8 * q + r0
    ensures Joined(r0, q, 0) == n
  {
    EighthPowers();
    PowNext(2, 0);
  }
}
