/**
 The arithmetic of the register instructions, with the source's 64-bit
 intermediates and its int32_t and int64_t conversions, and the laws of the M
 extension (RISC-V unprivileged ISA 20191213, chapter 7).
 */
module Alu {
  import opened Words

  /** Conversion to int64_t. */
  function Signed64(x: int): int {
    var u := x % TWO_64;
    if u < 0x8000_0000_0000_0000 then u else u - TWO_64
  }

  /** C's `/`: the fractional part of the quotient is discarded. */
  function TruncDiv(a: int, b: int): int
    requires b != 0
  {
    var q := Abs(a) / Abs(b);
    if (a < 0) == (b < 0) then q else -q
  }

  /** C's `%`. */
  function TruncRem(a: int, b: int): int
    requires b != 0
  {
    a - TruncDiv(a, b) * b
  }

  function Abs(x: int): nat {
    if x < 0 then -x else x
  }

  function Mul(a: u32, b: u32): u32 {
    And(a * b % TWO_64, 0xFFFF_FFFF)
  }

  function Mulh(a: u32, b: u32): u32 {
    Wrap(Signed64(Signed(a) * Signed(b)) / TWO_32)
  }

  function Mulhsu(a: u32, b: u32): u32 {
    Wrap(Signed64(Signed(a) * b) / TWO_32)
  }

  function Mulhu(a: u32, b: u32): u32 {
    Wrap(a * b % TWO_64 / TWO_32)
  }

  function Div(a: u32, b: u32): u32 {
    if Signed(b) == 0 then 0xFFFF_FFFF
    else if a == 0x8000_0000 && Signed(b) == -1 then a
    else Wrap(TruncDiv(Signed(a), Signed(b)))
  }

  function Divu(a: u32, b: u32): u32 {
    if b == 0 then 0xFFFF_FFFF else a / b
  }

  function Rem(a: u32, b: u32): u32 {
    if Signed(b) == 0 then a
    else if a == 0x8000_0000 && Signed(b) == -1 then 0
    else Wrap(TruncRem(Signed(a), Signed(b)))
  }

  function Remu(a: u32, b: u32): u32 {
    if b == 0 then a else a % b
  }

  /** `(int32_t)a >> k` on the usual targets. */
  function Sar(a: u32, k: nat): u32 {
    Wrap(Signed(a) / Pow2(k))
  }

  // ----- multiplication -----

  lemma MulMonotone(x: int, y: int, m: int, n: int)
    requires 0 <= x <= m && 0 <= y <= n
    ensures 0 <= x * y <= m * n
  {
  }

  /** The bit pattern of a product, cut into two words. */
  lemma HighAndLow(p: int)
    requires -0x8000_0000_0000_0000 <= p < 0x8000_0000_0000_0000
    ensures Signed64(p) == p
    ensures TWO_32 * Signed(Wrap(p / TWO_32)) + p % TWO_32 == p
  {
  }

  lemma ProductBounds(a: u32, b: u32)
    ensures 0 <= a * b < TWO_64
    ensures -0x8000_0000_0000_0000 <= Signed(a) * Signed(b) < 0x8000_0000_0000_0000
    ensures -0x8000_0000_0000_0000 <= Signed(a) * b < 0x8000_0000_0000_0000
  {
    MulMonotone(a, b, 0xFFFF_FFFF, 0xFFFF_FFFF);
    MulMonotone(Abs(Signed(a)), Abs(Signed(b)), 0x8000_0000, 0x8000_0000);
    MulMonotone(Abs(Signed(a)), b, 0x8000_0000, 0xFFFF_FFFF);
  }

  lemma SignedProducts(a: u32, b: u32)
    ensures Signed(a) * b == a * b - TWO_32 * (if Signed(a) < 0 then b else 0)
    ensures Signed(a) * Signed(b)
         == a * b - TWO_32 * (if Signed(a) < 0 then b else 0) - TWO_32 * (if Signed(b) < 0 then a else 0)
            + TWO_64 * (if Signed(a) < 0 && Signed(b) < 0 then 1 else 0)
  {
    assert (a - TWO_32) * b == a * b - TWO_32 * b;
    assert a * (b - TWO_32) == a * b - TWO_32 * a;
    assert (a - TWO_32) * (b - TWO_32) == (a - TWO_32) * b - TWO_32 * (a - TWO_32);
  }

  lemma LowWord(a: u32, b: u32)
    ensures Mul(a, b) == a * b % TWO_32
  {
    hide And, Pow2;
    Pow2Values();
    ProductBounds(a, b);
    AndLowMask(a * b, 32);
  }

  lemma LowWordSigned(a: u32, b: u32)
    ensures Signed(a) * Signed(b) % TWO_32 == a * b % TWO_32
    ensures Signed(a) * b % TWO_32 == a * b % TWO_32
  {
    var p, s, t := a * b, Signed(a) * Signed(b), Signed(a) * b;
    var x, y, z := if Signed(a) < 0 then b else 0, if Signed(b) < 0 then a else 0,
                   if Signed(a) < 0 && Signed(b) < 0 then 1 else 0;
    assert t == p - TWO_32 * x && s == p - TWO_32 * (x + y - TWO_32 * z) by { SignedProducts(a, b); }
    SameResidue(p, t, x);
    SameResidue(p, s, x + y - TWO_32 * z);
  }

  lemma SameResidue(x: int, y: int, k: int)
    requires y == x - TWO_32 * k
    ensures y % TWO_32 == x % TWO_32
  {
    DivideUnique(y, TWO_32, x / TWO_32 - k, x % TWO_32);
  }

  /** Each high word, joined with mul, is the exact product of chapter 7.1. */
  lemma ProductsAreExact(a: u32, b: u32)
    ensures TWO_32 * Mulhu(a, b) + Mul(a, b) == a * b
    ensures TWO_32 * Signed(Mulh(a, b)) + Mul(a, b) == Signed(a) * Signed(b)
    ensures TWO_32 * Signed(Mulhsu(a, b)) + Mul(a, b) == Signed(a) * b
  {
    hide Mul, Signed64;
    ProductBounds(a, b);
    LowWord(a, b);
    LowWordSigned(a, b);
    HighAndLow(Signed(a) * Signed(b));
    HighAndLow(Signed(a) * b);
    UnsignedHighAndLow(a * b);
  }

  lemma UnsignedHighAndLow(p: int)
    requires 0 <= p < TWO_64
    ensures TWO_32 * Wrap(p % TWO_64 / TWO_32) + p % TWO_32 == p
  {
  }

  /** The textbook correction from the unsigned to the signed high word. */
  lemma MulhFromMulhu(a: u32, b: u32)
    ensures Mulh(a, b)
         == Wrap(Mulhu(a, b) - (if Signed(a) < 0 then b else 0) - (if Signed(b) < 0 then a else 0))
  {
    hide Mul, Mulh, Mulhu;
    ProductsAreExact(a, b);
    SignedProducts(a, b);
    var x, y, z := if Signed(a) < 0 then b else 0, if Signed(b) < 0 then a else 0,
                   if Signed(a) < 0 && Signed(b) < 0 then 1 else 0;
    var k := Mulhu(a, b) - x - y;
    assert Signed(Mulh(a, b)) == k + TWO_32 * z;
    SameResidue(Signed(Mulh(a, b)), k, z);
    SignedResidue(Mulh(a, b));
  }

  lemma SignedResidue(w: u32)
    ensures Wrap(Signed(w)) == w
  {
  }

  // ----- division -----

  /** C's `/` and `%` in terms of the magnitudes. */
  lemma TruncLaws(a: int, b: int)
    requires b != 0
    ensures TruncRem(a, b) == if a < 0 then -(Abs(a) % Abs(b)) else Abs(a) % Abs(b)
    ensures Abs(TruncDiv(a, b)) <= Abs(a)
  {
    var n: int, d: int := Abs(a), Abs(b);
    var q: int := n / d;
    assert n == q * d + n % d;
    assert (-q) * d == -(q * d) && q * (-d) == -(q * d) && (-q) * (-d) == q * d;
    QuotientBound(n, d);
  }

  lemma QuotientBound(n: nat, d: nat)
    requires d > 0
    ensures 0 <= n / d <= n
    ensures n / d == n && n > 0 ==> d == 1
  {
    QuotientNonNegative(n, d);
    var q := n / d;
    assert q * d == q + q * (d - 1);
    if d > 1 { MulMonotone(1, q, d - 1, q); }
  }

  lemma NegativeMultiple(x: int, d: int)
    requires d > 0
    ensures x < 0 ==> x * d <= -d
  {
  }

  lemma QuotientNonNegative(n: nat, d: nat)
    requires d > 0
    ensures 0 <= n / d
  {
    var q := n / d;
    assert n == q * d + n % d;
    NegativeMultiple(q, d);
  }

  lemma SignedOfSmall(x: int)
    requires -0x8000_0000 <= x < 0x8000_0000
    ensures Signed(Wrap(x)) == x
  {
  }

  /** Wrap is a ring homomorphism, in the one shape the division laws need. */
  lemma WrapOfProductSum(t: int, q: int, r: int)
    ensures Wrap(Wrap(t) * Wrap(q) + Wrap(r)) == Wrap(t * q + r)
  {
    var i, j, k := t / TWO_32, q / TWO_32, r / TWO_32;
    var u, v := Wrap(t), Wrap(q);
    assert t == u + TWO_32 * i && q == v + TWO_32 * j;
    assert t * q == u * q + TWO_32 * (i * q);
    assert u * q == u * v + TWO_32 * (u * j);
    SameResidue(t * q + r, u * v + Wrap(r), i * q + u * j + k);
  }

  /** Outside the two special cases the signed quotient and remainder fit in 32 bits. */
  lemma SignedDivision(a: u32, b: u32)
    requires b != 0 && !(a == 0x8000_0000 && Signed(b) == -1)
    ensures Signed(Div(a, b)) == TruncDiv(Signed(a), Signed(b))
    ensures Signed(Rem(a, b)) == TruncRem(Signed(a), Signed(b))
  {
    hide TruncDiv, TruncRem;
    var s, t := Signed(a), Signed(b);
    TruncLaws(s, t);
    RemainderBelow(Abs(s), Abs(t));
    QuotientFits(s, t);
    SignedOfSmall(TruncDiv(s, t));
    SignedOfSmall(TruncRem(s, t));
  }

  lemma RemainderBelow(n: nat, d: nat)
    requires d > 0
    ensures 0 <= n % d < d
  {
  }

  lemma QuotientFits(s: int, t: int)
    requires -0x8000_0000 <= s < 0x8000_0000 && t != 0 && !(s == -0x8000_0000 && t == -1)
    ensures -0x8000_0000 <= TruncDiv(s, t) < 0x8000_0000
  {
    QuotientBound(Abs(s), Abs(t));
  }

  /** Chapter 7.2, including division by zero and the one signed overflow. */
  lemma DivisionLaws(a: u32, b: u32)
    ensures a == Wrap(b * Div(a, b) + Rem(a, b))
    ensures a == Wrap(b * Divu(a, b) + Remu(a, b))
    ensures b != 0 ==> Abs(Signed(Rem(a, b))) < Abs(Signed(b)) && Remu(a, b) < b
    ensures b != 0 && Rem(a, b) != 0 ==> (Signed(Rem(a, b)) < 0) == (Signed(a) < 0)
  {
    UnsignedDivisionLaws(a, b);
    if b == 0 || (a == 0x8000_0000 && Signed(b) == -1) {
      SpecialDivisionLaws(a, b);
    } else {
      RegularDivisionLaws(a, b);
    }
  }

  lemma UnsignedDivisionLaws(a: u32, b: u32)
    ensures a == Wrap(b * Divu(a, b) + Remu(a, b))
    ensures b != 0 ==> Remu(a, b) < b
  {
    if b != 0 { assert a == b * (a / b) + a % b; }
  }

  lemma SpecialDivisionLaws(a: u32, b: u32)
    requires b == 0 || (a == 0x8000_0000 && Signed(b) == -1)
    ensures a == Wrap(b * Div(a, b) + Rem(a, b))
    ensures b != 0 ==> Rem(a, b) == 0
  {
  }

  lemma RegularDivisionLaws(a: u32, b: u32)
    requires b != 0 && !(a == 0x8000_0000 && Signed(b) == -1)
    ensures a == Wrap(b * Div(a, b) + Rem(a, b))
    ensures Abs(Signed(Rem(a, b))) < Abs(Signed(b))
    ensures Rem(a, b) != 0 ==> (Signed(Rem(a, b)) < 0) == (Signed(a) < 0)
  {
    hide Div, Rem, TruncDiv;
    var s, t := Signed(a), Signed(b);
    SignedDivision(a, b);
    TruncLaws(s, t);
    RemainderBelow(Abs(s), Abs(t));
    SignedResidue(a);
    SignedResidue(b);
    SignedResidue(Div(a, b));
    SignedResidue(Rem(a, b));
    WrapOfProductSum(t, TruncDiv(s, t), TruncRem(s, t));
    assert t * TruncDiv(s, t) + TruncRem(s, t) == s;
  }
}
