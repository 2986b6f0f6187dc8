/** Wide products from 32-bit halves, every intermediate held in a 64-bit word. */
module WideMul {
  import opened Arith
  import opened Limbs
  import opened BigintLemmas
  import opened BigintClass

  /** Addition of 64-bit words, wrapping. */
  function Add64(x: int, y: int): (r: uint64)
    ensures 0 <= x + y < TWO64 ==> r == x + y
  {
    (x + y) % TWO64
  }

  /** Multiplication of 64-bit words, wrapping. */
  function Mul64(x: int, y: int): (r: uint64) { Low64(x * y) }

  function Low64(p: int): (r: uint64)
    ensures 0 <= p < TWO64 ==> r == p
  {
    p % TWO64
  }

  /** A 64-bit word shifted left by 32 places. */
  function Shl32(x: int): (r: uint64) { (x * BASE) % TWO64 }

  // ---- lhs * rhs / 2^64, rounded to nearest ----

  function Multiply(lhs: uint64, rhs: uint64): uint64 {
    var a, b := lhs / BASE, lhs % BASE;
    var c, d := rhs / BASE, rhs % BASE;
    var ac, bc, ad, bd := Mul64(a, c), Mul64(b, c), Mul64(a, d), Mul64(b, d);
    var mid := Add64(Add64(Add64(bd / BASE, ad % BASE), bc % BASE), 0x8000_0000);
    Add64(Add64(Add64(ac, ad / BASE), bc / BASE), mid / BASE)
  }

  lemma MultiplyRounds(lhs: uint64, rhs: uint64)
    ensures Multiply(lhs, rhs) == (lhs * rhs + TWO63) / TWO64
  {
    hide Add64, Low64;
    var a, b := lhs / BASE, lhs % BASE;
    var c, d := rhs / BASE, rhs % BASE;
    SchoolProduct(lhs, rhs);
    MiddleRounds(Halves(a, c), Halves(b, c), Halves(a, d), Halves(b, d), lhs * rhs);
  }

  /** The product of two 32-bit halves fits a 64-bit word. */
  ghost function Halves(a: nat, b: nat): (p: nat)
    requires a < BASE && b < BASE
    ensures p == a * b == Mul64(a, b) && p <= (BASE - 1) * (BASE - 1)
  {
    LimbProduct(a, b);
    a * b
  }

  lemma SchoolProduct(x: nat, y: nat)
    ensures var a, b, c, d := x / BASE, x % BASE, y / BASE, y % BASE;
            x * y == TWO64 * (a * c) + BASE * (a * d + b * c) + b * d
  {
    var a, b, c, d := x / BASE, x % BASE, y / BASE, y % BASE;
    assert x == BASE * a + b && y == BASE * c + d;
    MulDistrib(BASE * a, b, y);
    assert (BASE * a) * y == BASE * (a * y);
    assert a * y == BASE * (a * c) + a * d;
    assert b * y == BASE * (b * c) + b * d;
  }

  /** The column sums, with their carries; nothing above 2^64. */
  lemma MiddleRounds(ac: nat, bc: nat, ad: nat, bd: nat, product: nat)
    requires ac <= (BASE - 1) * (BASE - 1) && bc <= (BASE - 1) * (BASE - 1)
    requires ad <= (BASE - 1) * (BASE - 1) && bd <= (BASE - 1) * (BASE - 1)
    requires product == TWO64 * ac + BASE * (ad + bc) + bd
    ensures var mid := bd / BASE + ad % BASE + bc % BASE + 0x8000_0000;
            mid < TWO64 && ac + ad / BASE + bc / BASE + mid / BASE < TWO64
            && ac + ad / BASE + bc / BASE + mid / BASE == (product + TWO63) / TWO64
  {
    var mid := bd / BASE + ad % BASE + bc % BASE + 0x8000_0000;
    var high := ac + ad / BASE + bc / BASE + mid / BASE;
    var rest := BASE * (mid % BASE) + bd % BASE;
    assert product + TWO63 == TWO64 * high + rest;
  }

  // ---- The full 128-bit product ----

  /** A 128-bit word as two 64-bit ones. */
  datatype Uint128 = Uint128(high: uint64, low: uint64) {
    function Value(): nat { TWO64 * high + low }

    /** Adds a 64-bit word; the carry shows as a wrapped low word. */
    function Plus(n: uint64): Uint128 {
      var sum := Add64(low, n);
      Uint128(Add64(high, if sum < low then 1 else 0), sum)
    }
  }

  lemma PlusExact(w: Uint128, n: uint64)
    requires w.Value() + n < TWO64 * TWO64
    ensures w.Plus(n).Value() == w.Value() + n
    ensures w.Plus(n).high == (w.Value() + n) / TWO64
  {}

  function Umul128(x: uint64, y: uint64): Uint128 {
    var a, b := x / BASE, x % BASE;
    var c, d := y / BASE, y % BASE;
    SumColumns(Mul64(a, c), Mul64(b, c), Mul64(a, d), Mul64(b, d))
  }

  /** The four partial products at their weights. */
  function SumColumns(ac: uint64, bc: uint64, ad: uint64, bd: uint64): Uint128 {
    var intermediate := Add64(Add64(bd / BASE, ad % BASE), bc % BASE);
    Uint128(Add64(Add64(Add64(ac, intermediate / BASE), ad / BASE), bc / BASE),
            Add64(Shl32(intermediate), bd % BASE))
  }

  lemma Umul128Exact(x: uint64, y: uint64)
    ensures Umul128(x, y).Value() == x * y
    ensures Umul128(x, y).high == (x * y) / TWO64
  {
    hide SumColumns, Mul64;
    var a, b := x / BASE, x % BASE;
    var c, d := y / BASE, y % BASE;
    SchoolProduct(x, y);
    ColumnsAddUp(Halves(a, c), Halves(b, c), Halves(a, d), Halves(b, d), x * y);
    HighWord(Umul128(x, y), x * y);
  }

  lemma HighWord(w: Uint128, p: nat)
    requires w.Value() == p
    ensures w.high == p / TWO64
  {}

  lemma ColumnsAddUp(ac: nat, bc: nat, ad: nat, bd: nat, product: nat)
    requires ac <= (BASE - 1) * (BASE - 1) && bc <= (BASE - 1) * (BASE - 1)
    requires ad <= (BASE - 1) * (BASE - 1) && bd <= (BASE - 1) * (BASE - 1)
    requires product == TWO64 * ac + BASE * (ad + bc) + bd
    ensures SumColumns(ac, bc, ad, bd).Value() == product
  {
    hide Add64, Shl32;
    var mid := bd / BASE + ad % BASE + bc % BASE;
    assert mid < TWO64;
    ShiftedWord(mid);
    assert ac + mid / BASE + ad / BASE + bc / BASE < TWO64;
  }

  lemma ShiftedWord(x: nat)
    ensures Shl32(x) == BASE * (x % BASE)
  {
    assert x * BASE == (x / BASE) * TWO64 + BASE * (x % BASE);
  }

  function Umul128Upper64(x: uint64, y: uint64): uint64 {
    Umul128(x, y).high
  }

  /** The top word of a 64 by 128 bit product. */
  function Umul192Upper64(x: uint64, y: Uint128): uint64 {
    Umul128(x, y.high).Plus(Umul128Upper64(x, y.low)).high
  }

  /** The middle word of a 64 by 128 bit product. */
  function Umul192Middle64(x: uint64, y: Uint128): uint64 {
    Add64(Mul64(x, y.high), Umul128Upper64(x, y.low))
  }

  lemma Umul192UpperExact(x: uint64, y: Uint128)
    ensures Umul192Upper64(x, y) == (x * y.Value()) / (TWO64 * TWO64)
  {
    hide Umul128;
    Umul128Exact(x, y.high);
    Umul128Exact(x, y.low);
    UpperOfThree(x, y.high, y.low);
    PlusExact(Umul128(x, y.high), Umul128(x, y.low).high);
  }

  lemma Umul192MiddleExact(x: uint64, y: Uint128)
    ensures Umul192Middle64(x, y) == (x * y.Value() / TWO64) % TWO64
  {
    hide Umul128, Low64, Add64;
    Umul128Exact(x, y.low);
    ghost var n := Umul128Upper64(x, y.low);
    MiddleOfThree(x, y.high, y.low, n);
  }

  lemma MiddleOfThree(x: uint64, h: uint64, l: uint64, n: uint64)
    requires n == (x * l) / TWO64
    ensures Add64(Mul64(x, h), n) == (x * (TWO64 * h + l) / TWO64) % TWO64
  {
    UpperOfThree(x, h, l);
    LowOfSum(x * h, n);
  }

  lemma LowOfSum(p: int, n: uint64)
    ensures Add64(Low64(p), n) == (p + n) % TWO64
  {}

  lemma UpperOfThree(x: uint64, h: uint64, l: uint64)
    ensures 0 <= x * h + (x * l) / TWO64 < TWO64 * TWO64
    ensures (x * (TWO64 * h + l)) / TWO64 == x * h + (x * l) / TWO64
    ensures (x * (TWO64 * h + l)) / (TWO64 * TWO64) == (x * h + (x * l) / TWO64) / TWO64
  {
    WordProduct(x, h);
    WordProduct(x, l);
    assert x * (TWO64 * h + l) == TWO64 * (x * h) + x * l;
    TwoStepDivision(x * h, x * l);
  }

  lemma WordProduct(x: uint64, y: uint64)
    ensures 0 <= x * y <= (TWO64 - 1) * (TWO64 - 1)
  {
    MulMonotone(x, TWO64 - 1, y);
    MulMonotone(y, TWO64 - 1, TWO64 - 1);
  }

  lemma TwoStepDivision(p: nat, q: nat)
    ensures (TWO64 * p + q) / TWO64 == p + q / TWO64
    ensures (TWO64 * p + q) / (TWO64 * TWO64) == (p + q / TWO64) / TWO64
  {}

  /** The rounded product of two normalised significands keeps its top two bits' worth, so that shifted
      right by at most 60 places it is not zero. */
  lemma NormalizedProduct(x: uint64, y: uint64)
    requires x >= TWO63 && y >= TWO63
    ensures Multiply(x, y) >= 0x4000_0000_0000_0000
  {
    hide Multiply;
    MultiplyRounds(x, y);
    MulMonotone(TWO63, x, y);
    MulMonotone(TWO63, y, TWO63);
  }
}
