/** 128-bit arithmetic on 64-bit words (CryptoNight/int-util.h). */
module IntUtil {
  import opened Bytes

  function HiDword(v: nat): (d: nat)
    ensures v < TWO_64 ==> d < TWO_32
  {
    v / TWO_32
  }

  function LoDword(v: nat): (d: nat)
    ensures d < TWO_32
  {
    v % TWO_32
  }

  /** uint64_t arithmetic wraps. */
  function Wrap(x: nat): U64 { x % TWO_64 }

  lemma SchoolProduct(x: U64, y: U64)
    ensures x * y == HiDword(x) * HiDword(y) * TWO_64
                   + (HiDword(x) * LoDword(y) + LoDword(x) * HiDword(y)) * TWO_32
                   + LoDword(x) * LoDword(y)
  {
    var a: int, b: int, c: int, d: int := HiDword(x), LoDword(x), HiDword(y), LoDword(y);
    assert x == a * TWO_32 + b && y == c * TWO_32 + d;
    Expand(a, b, c, d, TWO_32);
    assert TWO_32 * TWO_32 == TWO_64;
  }

  lemma Expand(a: int, b: int, c: int, d: int, m: int)
    ensures (a * m + b) * (c * m + d) == a * c * (m * m) + (a * d + b * c) * m + b * d
  {
    assert (a * m + b) * (c * m + d) == a * m * (c * m + d) + b * (c * m + d);
    assert a * m * (c * m + d) == a * m * (c * m) + a * m * d;
    assert b * (c * m + d) == b * (c * m) + b * d;
    assert a * m * (c * m) == a * c * (m * m);
    assert (a * d + b * c) * m == a * d * m + b * c * m;
  }

  lemma DwordProduct(a: nat, b: nat)
    requires a < TWO_32 && b < TWO_32
    ensures 0 <= a * b <= (TWO_32 - 1) * (TWO_32 - 1)
  {
    ProductMonotone(a, TWO_32 - 1, b);
    ProductMonotone(b, TWO_32 - 1, TWO_32 - 1);
  }

  lemma ProductMonotone(a: nat, b: nat, c: nat)
    requires a <= b
    ensures a * c <= b * c
  {}

  /** mul128: the high word is returned through the pointer, the low word as the result. */
  method Mul128(multiplier: U64, multiplicand: U64) returns (productLo: U64, productHi: U64)
    ensures productHi * TWO_64 + productLo == multiplier * multiplicand
  {
    SchoolProduct(multiplier, multiplicand);
    var a: nat, b: nat := HiDword(multiplier), LoDword(multiplier);
    var c: nat, d: nat := HiDword(multiplicand), LoDword(multiplicand);
    DwordProduct(a, c); DwordProduct(a, d); DwordProduct(b, c); DwordProduct(b, d);
    productLo, productHi := AddPartialProducts(a * c, a * d, b * c, b * d);
  }

  /** The carries between the four partial products. */
  method AddPartialProducts(ac: nat, ad: nat, bc: nat, bd: nat) returns (lo: U64, hi: U64)
    requires ac <= (TWO_32 - 1) * (TWO_32 - 1) && ad <= (TWO_32 - 1) * (TWO_32 - 1)
    requires bc <= (TWO_32 - 1) * (TWO_32 - 1) && bd <= (TWO_32 - 1) * (TWO_32 - 1)
    ensures hi * TWO_64 + lo == ac * TWO_64 + (ad + bc) * TWO_32 + bd
  {
    hide Wrap, HiDword, LoDword;
    var adbc: nat := Wrap(ad + bc);
    var adbcCarry: nat := if adbc < ad then 1 else 0;
    WrapCarry(ad, bc);
    var shifted: nat := Wrap(adbc * TWO_32);
    WrapShift(adbc);
    lo := Wrap(bd + shifted);
    var loCarry: nat := if lo < bd then 1 else 0;
    WrapCarry(bd, shifted);
    ghost var h: nat := ac + HiDword(adbc) + adbcCarry * TWO_32 + loCarry;
    assert h * TWO_64 + lo == ac * TWO_64 + (ad + bc) * TWO_32 + bd;
    WrapFits(h);
    hi := Wrap(ac + HiDword(adbc) + adbcCarry * TWO_32 + loCarry);
  }

  lemma WrapCarry(x: nat, y: nat)
    requires x < TWO_64 && y < TWO_64
    ensures x + y == Wrap(x + y) + (if Wrap(x + y) < x then 1 else 0) * TWO_64
  {}

  lemma WrapShift(v: nat)
    requires v < TWO_64
    ensures v == HiDword(v) * TWO_32 + LoDword(v)
    ensures Wrap(v * TWO_32) == LoDword(v) * TWO_32
  {}

  lemma WrapFits(v: nat)
    ensures v < TWO_64 ==> Wrap(v) == v
  {}

  /** div_with_reminder: one dword of a long division; the remainder goes in and out. */
  method DivWithReminder(dividend: nat, divisor: nat, remainderIn: nat) returns (quotient: nat, remainder: nat)
    requires dividend < TWO_32 && remainderIn < divisor < TWO_32
    ensures remainderIn * TWO_32 + dividend == quotient * divisor + remainder
    ensures remainder < divisor && quotient < TWO_32
  {
    var d := remainderIn * TWO_32 + dividend;
    DivMod(d, divisor, remainderIn, dividend);
    remainder := d % divisor;
    quotient := d / divisor;
  }

  lemma DivMod(d: nat, divisor: nat, r: nat, low: nat)
    requires low < TWO_32 && r < divisor && d == r * TWO_32 + low
    ensures d == d / divisor * divisor + d % divisor && d / divisor < TWO_32
  {
    var q := d / divisor;
    assert d == q * divisor + d % divisor;
    assert d < (r + 1) * TWO_32 <= divisor * TWO_32;
    if q >= TWO_32 {
      ProductMonotone(TWO_32, q, divisor);
    }
  }

  /** div128_32: the long division is exact, dword by dword. */
  method Div128By32(dividendHi: U64, dividendLo: U64, divisor: U32)
    returns (remainder: U32, quotientHi: U64, quotientLo: U64)
    requires divisor > 0
    ensures dividendHi * TWO_64 + dividendLo == (quotientHi * TWO_64 + quotientLo) * divisor + remainder
    ensures remainder < divisor
  {
    var q3, r3 := DivWithReminder(HiDword(dividendHi), divisor, 0);
    var q2, r2 := DivWithReminder(LoDword(dividendHi), divisor, r3);
    var q1, r1 := DivWithReminder(HiDword(dividendLo), divisor, r2);
    var q0, r0 := DivWithReminder(LoDword(dividendLo), divisor, r1);
    quotientHi, quotientLo, remainder := q3 * TWO_32 + q2, q1 * TWO_32 + q0, r0;
    JoinDwords(q3, q2, q1, q0, divisor);
    assert dividendHi == HiDword(dividendHi) * TWO_32 + LoDword(dividendHi);
    assert dividendLo == HiDword(dividendLo) * TWO_32 + LoDword(dividendLo);
  }

  lemma JoinDwords(q3: nat, q2: nat, q1: nat, q0: nat, divisor: nat)
    ensures ((q3 * TWO_32 + q2) * TWO_64 + (q1 * TWO_32 + q0)) * divisor
         == q3 * divisor * (TWO_32 * TWO_64) + q2 * divisor * TWO_64 + q1 * divisor * TWO_32 + q0 * divisor
  {
    assert (q3 * TWO_32 + q2) * TWO_64 + (q1 * TWO_32 + q0) == q3 * (TWO_32 * TWO_64) + q2 * TWO_64 + q1 * TWO_32 + q0;
  }
}
