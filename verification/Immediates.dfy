/**
 Instruction fields and immediates.  The first half is the source's macros, mask
 by mask; the second half is the layout of chapter 2.3 of the RISC-V unprivileged
 ISA manual (20191213), as an encoder and as arithmetic on fields.
 */
module Immediates {
  import opened Words

  // ----- the source's macros -----

  function SExt(x: u32, n: nat): u32
    requires 1 <= n <= 32
  {
    if And(x, Shl(1, n - 1)) != 0 then Or32(x, Shl(0xFFFF_FFFF, n)) else x
  }

  function Opcode(w: u32): u32 { And(w, 0x7f) }
  function Funct3(w: u32): u32 { And(Shr(w, 12), 0x7) }
  function Funct7(w: u32): u32 { And(Shr(w, 25), 0x7f) }

  function Rd(w: u32): (i: u32)
    ensures i < 32
  {
    And(Shr(w, 7), 0x1f)
  }

  function Rs1(w: u32): (i: u32)
    ensures i < 32
  {
    And(Shr(w, 15), 0x1f)
  }

  function Rs2(w: u32): (i: u32)
    ensures i < 32
  {
    And(Shr(w, 20), 0x1f)
  }

  function ImmI(w: u32): u32 { And(Shr(w, 20), 0xfff) }

  function ImmS(w: u32): u32 {
    Or32(Shr(And(w, 0xf80), 7), Shr(And(w, 0xfe00_0000), 20))
  }

  function ImmB(w: u32): u32 {
    Or32(Or32(Or32(Shr(And(w, 0xf00), 7), Shr(And(w, 0x7e00_0000), 20)),
              Shl(And(w, 0x80), 4)),
         Shr(And(w, 0x8000_0000), 19))
  }

  function ImmU(w: u32): u32 { Shr(w, 12) }

  function ImmJ(w: u32): u32 {
    Or32(Or32(Or32(Shr(And(w, 0x7fe0_0000), 20), Shr(And(w, 0x10_0000), 9)),
              And(w, 0xf_f000)),
         Shr(And(w, 0x8000_0000), 11))
  }

  function SExtImmI(w: u32): u32 { SExt(ImmI(w), 12) }
  function SExtImmS(w: u32): u32 { SExt(ImmS(w), 12) }
  function SExtImmB(w: u32): u32 { SExt(ImmB(w), 13) }
  function SExtImmU(w: u32): u32 { SExt(ImmU(w), 20) }
  function SExtImmJ(w: u32): u32 { SExt(ImmJ(w), 20) }

  // ----- the manual's layout -----

  /** Two's complement reading of an n-bit field whose weight is `half` at the top bit. */
  function Extend(x: int, half: int): int {
    if x < half then x else x - 2 * half
  }

  function LayoutI(w: u32): nat { w / 0x10_0000 }

  function LayoutS(w: u32): nat { w / 0x200_0000 * 0x20 + w / 0x80 % 0x20 }

  function LayoutB(w: u32): nat {
    w / 0x8000_0000 * 0x1000 + w / 0x80 % 2 * 0x800 + w / 0x200_0000 % 0x40 * 0x20 + w / 0x100 % 0x10 * 2
  }

  function LayoutU(w: u32): nat { w / 0x1000 }

  function LayoutJ(w: u32): nat {
    w / 0x8000_0000 * 0x10_0000 + w / 0x1000 % 0x100 * 0x1000 + w / 0x10_0000 % 2 * 0x800
    + w / 0x20_0000 % 0x400 * 2
  }

  // Encoders: the immediate v is cut into the manual's fields; `mid` stands for
  // bits 12 to 24 (funct3, rs1, rs2) and `low` for the bits below the immediate.

  function EncodeI(v: int, low: nat): u32
    requires -0x800 <= v < 0x800 && low < 0x10_0000
  {
    v % 0x1000 * 0x10_0000 + low
  }

  function EncodeS(v: int, mid: nat, low: nat): u32
    requires -0x800 <= v < 0x800 && mid < 0x2000 && low < 0x80
  {
    v / 0x20 % 0x80 * 0x200_0000 + mid * 0x1000 + v % 0x20 * 0x80 + low
  }

  function EncodeB(v: int, mid: nat, low: nat): u32
    requires -0x1000 <= v < 0x1000 && mid < 0x2000 && low < 0x80
  {
    v / 0x1000 % 2 * 0x8000_0000 + v / 0x20 % 0x40 * 0x200_0000 + mid * 0x1000
    + v / 2 % 0x10 * 0x100 + v / 0x800 % 2 * 0x80 + low
  }

  function EncodeU(v: int, low: nat): u32
    requires -0x8_0000 <= v < 0x8_0000 && low < 0x1000
  {
    v % 0x10_0000 * 0x1000 + low
  }

  function EncodeJ(v: int, low: nat): u32
    requires -0x10_0000 <= v < 0x10_0000 && low < 0x1000
  {
    v / 0x10_0000 % 2 * 0x8000_0000 + v / 2 % 0x400 * 0x20_0000 + v / 0x800 % 2 * 0x10_0000
    + v / 0x1000 % 0x100 * 0x1000 + low
  }

  // ----- the macros read the layout -----

  lemma ShlOnes(p: nat)
    requires 1 <= p <= TWO_32
    ensures Wrap(0xFFFF_FFFF * p) == TWO_32 - p
  {
    DivideUnique(0xFFFF_FFFF * p, TWO_32, p - 1, TWO_32 - p);
  }

  // The next three lemmas restate the general facts with the powers of two as
  // plain numbers, so that what remains at a use is linear.

  lemma Keep(a: nat, lo: nat, len: nat, p: nat, q: nat)
    requires Pow2(lo) == p && Pow2(len) == q
    ensures p > 0 && q > 0 && And(a, (q - 1) * p) == a / p % q * p
  {
    AndFieldMask(a, lo, len);
  }

  lemma ShiftDown(a: nat, k: nat, p: nat)
    requires Pow2(k) == p
    ensures p > 0 && Shr(a, k) == a / p
  {
    ShrIsDivision(a, k);
  }

  lemma Join(a: nat, b: nat, j: nat, p: nat, q: nat)
    requires Pow2(j) == p && a < p && b == q * p
    ensures Or(a, b) == a + b
  {
    DivideUnique(b, p, q, 0);
    OrDisjoint(a, b, j);
  }

  lemma Extract(a: nat, lo: nat, len: nat, p: nat, q: nat)
    requires Pow2(lo) == p && Pow2(len) == q
    ensures p > 0 && q > 0 && And(Shr(a, lo), q - 1) == a / p % q
  {
    ShiftThenMask(a, lo, len);
  }

  lemma TopTest(x: u32, n: nat, half: nat)
    requires 1 <= n && Pow2(n - 1) == half && x < 2 * half <= TWO_32
    ensures And(x, Shl(1, n - 1)) == if x >= half then half else 0
  {
    hide And, Bit, Pow2;
    AndPow2(x, n - 1);
    TopBit(x, n - 1);
  }

  lemma HighOnes(n: nat, p: nat)
    requires Pow2(n) == p <= TWO_32
    ensures Shl(0xFFFF_FFFF, n) == TWO_32 - p
  {
    ShlOnes(p);
  }

  /** The SEXT macro reads an n-bit field as two's complement. */
  lemma SExtValue(x: u32, n: nat, half: nat, q: nat)
    requires 1 <= n <= 32 && Pow2(n - 1) == half && Pow2(n) == 2 * half && x < 2 * half <= TWO_32
    requires TWO_32 - 2 * half == q * (2 * half)
    ensures SExt(x, n) == Wrap(Extend(x, half))
  {
    hide Pow2, And, Or, Shr;
    var p := 2 * half;
    TopTest(x, n, half);
    HighOnes(n, p);
    if x >= half {
      Join(x, TWO_32 - p, n, p, q);
    }
  }

  lemma FieldsAtLiterals(w: u32)
    ensures Opcode(w) == w % 0x80
    ensures Rd(w) == w / 0x80 % 0x20
    ensures Funct3(w) == w / 0x1000 % 8
    ensures Rs1(w) == w / 0x8000 % 0x20
    ensures Rs2(w) == w / 0x10_0000 % 0x20
    ensures Funct7(w) == w / 0x200_0000 % 0x80
    ensures ImmI(w) == LayoutI(w)
    ensures ImmU(w) == LayoutU(w)
  {
    hide Pow2, And, Or, Shr;
    Pow2Values();
    AndLowMask(w, 7);
    Extract(w, 7, 5, 0x80, 0x20);
    Extract(w, 12, 3, 0x1000, 8);
    Extract(w, 15, 5, 0x8000, 0x20);
    Extract(w, 20, 5, 0x10_0000, 0x20);
    Extract(w, 20, 12, 0x10_0000, 0x1000);
    Extract(w, 25, 7, 0x200_0000, 0x80);
    ShiftDown(w, 12, 0x1000);
  }

  lemma ShiftedDown(w: u32, lo: nat, len: nat, k: nat, p: nat, q: nat, r: nat)
    requires Pow2(lo) == p && Pow2(len) == q && Pow2(k) == r
    ensures p > 0 && q > 0 && r > 0
    ensures And(w, (q - 1) * p) == w / p % q * p
    ensures Shr(And(w, (q - 1) * p), k) == w / p % q * p / r
  {
    Keep(w, lo, len, p, q);
    ShiftDown(And(w, (q - 1) * p), k, r);
  }

  lemma ImmSAtLiterals(w: u32)
    ensures ImmS(w) == LayoutS(w)
  {
    hide Pow2, And, Or, Shr;
    Pow2Values();
    ShiftedDown(w, 7, 5, 7, 0x80, 0x20, 0x80);
    ShiftedDown(w, 25, 7, 20, 0x200_0000, 0x80, 0x10_0000);
    Join(w / 0x80 % 0x20, w / 0x200_0000 * 0x20, 5, 0x20, w / 0x200_0000);
  }

  lemma ImmBAtLiterals(w: u32)
    ensures ImmB(w) == LayoutB(w)
  {
    hide Pow2, And, Or, Shr;
    var a, b := w / 0x100 % 0x10 * 2, w / 0x200_0000 % 0x40 * 0x20;
    var c, d := w / 0x80 % 2 * 0x800, w / 0x8000_0000 * 0x1000;
    PiecesOfB(w);
    Pow2Values();
    Join(a, b, 5, 0x20, w / 0x200_0000 % 0x40);
    Join(a + b, c, 11, 0x800, w / 0x80 % 2);
    Join(a + b + c, d, 12, 0x1000, w / 0x8000_0000);
  }

  lemma PiecesOfB(w: u32)
    ensures Shr(And(w, 0xf00), 7) == w / 0x100 % 0x10 * 2
    ensures Shr(And(w, 0x7e00_0000), 20) == w / 0x200_0000 % 0x40 * 0x20
    ensures Shl(And(w, 0x80), 4) == w / 0x80 % 2 * 0x800
    ensures Shr(And(w, 0x8000_0000), 19) == w / 0x8000_0000 * 0x1000
  {
    hide Pow2, And, Or, Shr;
    Pow2Values();
    ShiftedDown(w, 8, 4, 7, 0x100, 0x10, 0x80);
    ShiftedDown(w, 25, 6, 20, 0x200_0000, 0x40, 0x10_0000);
    Keep(w, 7, 1, 0x80, 2);
    ShiftedDown(w, 31, 1, 19, 0x8000_0000, 2, 0x8_0000);
  }

  lemma PiecesOfJ(w: u32)
    ensures Shr(And(w, 0x7fe0_0000), 20) == w / 0x20_0000 % 0x400 * 2
    ensures Shr(And(w, 0x10_0000), 9) == w / 0x10_0000 % 2 * 0x800
    ensures And(w, 0xf_f000) == w / 0x1000 % 0x100 * 0x1000
    ensures Shr(And(w, 0x8000_0000), 11) == w / 0x8000_0000 * 0x10_0000
  {
    hide Pow2, And, Or, Shr;
    Pow2Values();
    ShiftedDown(w, 21, 10, 20, 0x20_0000, 0x400, 0x10_0000);
    ShiftedDown(w, 20, 1, 9, 0x10_0000, 2, 0x200);
    Keep(w, 12, 8, 0x1000, 0x100);
    ShiftedDown(w, 31, 1, 11, 0x8000_0000, 2, 0x800);
  }

  lemma ImmJAtLiterals(w: u32)
    ensures ImmJ(w) == LayoutJ(w)
  {
    hide Pow2, And, Or, Shr;
    var a, b := w / 0x20_0000 % 0x400 * 2, w / 0x10_0000 % 2 * 0x800;
    var c, d := w / 0x1000 % 0x100 * 0x1000, w / 0x8000_0000 * 0x10_0000;
    PiecesOfJ(w);
    Pow2Values();
    Join(a, b, 11, 0x800, w / 0x10_0000 % 2);
    Join(a + b, c, 12, 0x1000, w / 0x1000 % 0x100);
    Join(a + b + c, d, 20, 0x10_0000, w / 0x8000_0000);
  }

  // ----- sign extension -----

  lemma SignedImmediates(w: u32)
    ensures SExtImmI(w) == Wrap(Extend(LayoutI(w), 0x800))
    ensures SExtImmS(w) == Wrap(Extend(LayoutS(w), 0x800))
    ensures SExtImmB(w) == Wrap(Extend(LayoutB(w), 0x1000))
    ensures SExtImmU(w) == Wrap(Extend(LayoutU(w), 0x8_0000))
  {
    hide Pow2, And, Or, Shr, SExt, ImmI, ImmS, ImmB, ImmU;
    Pow2Values();
    FieldsAtLiterals(w);
    ImmSAtLiterals(w);
    ImmBAtLiterals(w);
    SExtValue(LayoutI(w), 12, 0x800, 0xf_ffff);
    SExtValue(LayoutS(w), 12, 0x800, 0xf_ffff);
    SExtValue(LayoutB(w), 13, 0x1000, 0x7_ffff);
    SExtValue(LayoutU(w), 20, 0x8_0000, 0xfff);
  }

  /** What SEXT_IMM_J really computes: bit 19 is copied upward, over bit 20. */
  function JalAsWritten(x: nat): int {
    if x / 0x8_0000 % 2 == 1 then x % 0x10_0000 - 0x10_0000 else x
  }

  lemma SExtImmJAsWritten(w: u32)
    ensures SExtImmJ(w) == Wrap(JalAsWritten(LayoutJ(w)))
  {
    var x := LayoutJ(w);
    BitTwenty(x);
    ImmJAtLiterals(w);
  }

  lemma BitTwenty(x: u32)
    requires x < 0x20_0000
    ensures SExt(x, 20) == Wrap(JalAsWritten(x))
  {
    hide Pow2, And, Or;
    Pow2Values();
    Keep(x, 19, 1, 0x8_0000, 2);
    if x / 0x8_0000 % 2 == 1 {
      var l, b := x % 0x10_0000, x / 0x10_0000;
      Join(l, b * 0x10_0000, 20, 0x10_0000, b);
      OrAssociative(l, b * 0x10_0000, 0xfff0_0000);
      OrScale(b, 0xfff, 20);
      OrIntoOnes(b);
      Join(l, 0xfff0_0000, 20, 0x10_0000, 0xfff);
    }
  }

  lemma OrIntoOnes(b: nat)
    requires b < 2
    ensures Or(b, 0xfff) == 0xfff
  {
  }

  // ----- round trips -----

  /** One field of a number in mixed radix. */
  lemma ReadField(w: nat, p: nat, q: nat, hi: nat, f: nat, lo: nat)
    requires p > 0 && f < q && lo < p
    requires w == (hi * q + f) * p + lo
    ensures w / p == hi * q + f && w / p % q == f
  {
    DivideUnique(w, p, hi * q + f, lo);
    DivideUnique(hi * q + f, q, hi, f);
  }

  lemma FieldsOfB(a: nat, b: nat, mid: nat, c: nat, d: nat, low: nat)
    requires a < 2 && b < 0x40 && mid < 0x2000 && c < 0x10 && d < 2 && low < 0x80
    ensures var w: u32 := a * 0x8000_0000 + b * 0x200_0000 + mid * 0x1000 + c * 0x100 + d * 0x80 + low;
      LayoutB(w) == a * 0x1000 + d * 0x800 + b * 0x20 + c * 2
  {
    var w: u32 := a * 0x8000_0000 + b * 0x200_0000 + mid * 0x1000 + c * 0x100 + d * 0x80 + low;
    ReadField(w, 0x8000_0000, 2, 0, a, w - a * 0x8000_0000);
    ReadField(w, 0x200_0000, 0x40, a, b, mid * 0x1000 + c * 0x100 + d * 0x80 + low);
    ReadField(w, 0x100, 0x10, a * 0x8_0000 + b * 0x2000 + mid, c, d * 0x80 + low);
    ReadField(w, 0x80, 2, a * 0x80_0000 + b * 0x2_0000 + mid * 0x10 + c, d, low);
  }

  lemma FieldsOfJ(a: nat, b: nat, c: nat, d: nat, low: nat)
    requires a < 2 && b < 0x400 && c < 2 && d < 0x100 && low < 0x1000
    ensures var w: u32 := a * 0x8000_0000 + b * 0x20_0000 + c * 0x10_0000 + d * 0x1000 + low;
      LayoutJ(w) == a * 0x10_0000 + d * 0x1000 + c * 0x800 + b * 2
  {
    var w: u32 := a * 0x8000_0000 + b * 0x20_0000 + c * 0x10_0000 + d * 0x1000 + low;
    ReadField(w, 0x8000_0000, 2, 0, a, w - a * 0x8000_0000);
    ReadField(w, 0x20_0000, 0x400, a, b, c * 0x10_0000 + d * 0x1000 + low);
    ReadField(w, 0x10_0000, 2, a * 0x400 + b, c, d * 0x1000 + low);
    ReadField(w, 0x1000, 0x100, a * 0x800 + b * 2 + c, d, low);
  }

  lemma FieldsOfS(hi: nat, mid: nat, lo: nat, low: nat)
    requires hi < 0x80 && mid < 0x2000 && lo < 0x20 && low < 0x80
    ensures var w: u32 := hi * 0x200_0000 + mid * 0x1000 + lo * 0x80 + low;
      LayoutS(w) == hi * 0x20 + lo
  {
    var w: u32 := hi * 0x200_0000 + mid * 0x1000 + lo * 0x80 + low;
    ReadField(w, 0x200_0000, 0x80, 0, hi, mid * 0x1000 + lo * 0x80 + low);
    ReadField(w, 0x80, 0x20, hi * 0x2000 + mid, lo, low);
  }

  lemma DivideTwice(x: int, a: int, b: int)
    requires a > 0 && b > 0
    ensures x / a / b == x / (a * b)
  {
    var q, s, r: int := x / a / b, x / a % b, x % a;
    Regroup(q, b, s, a);
    Fits(s, a, b, r);
    DivideUnique(x, a * b, q, s * a + r);
  }

  lemma Regroup(q: int, b: int, s: int, a: int)
    ensures (q * b + s) * a == q * (a * b) + s * a
  {
  }

  lemma Fits(s: int, a: int, b: int, r: int)
    requires 0 <= s < b && 0 <= r < a
    ensures 0 <= s * a + r < a * b
  {
    assert s * a <= (b - 1) * a;
    assert (b - 1) * a == a * b - a;
  }

  lemma CutS(v: int)
    ensures v / 0x20 % 0x80 * 0x20 + v % 0x20 == v % 0x1000
  {
    DivideTwice(v, 0x20, 0x80);
    DivideUnique(v, 0x1000, v / 0x20 / 0x80, v / 0x20 % 0x80 * 0x20 + v % 0x20);
  }

  /** Cutting v mod 2^13 at bits 1, 5, 11 and 12. */
  lemma CutB(v: int)
    ensures v / 0x1000 % 2 * 0x1000 + v / 0x800 % 2 * 0x800 + v / 0x20 % 0x40 * 0x20 + v / 2 % 0x10 * 2
         == (v - v % 2) % 0x2000
  {
    DivideTwice(v, 2, 0x10);
    DivideTwice(v, 0x20, 0x40);
    DivideTwice(v, 0x800, 2);
    var a, b, c, d := v / 0x1000 % 2, v / 0x20 % 0x40, v / 2 % 0x10, v / 0x800 % 2;
    DivideUnique(v - v % 2, 0x2000, v / 0x1000 / 2, a * 0x1000 + d * 0x800 + b * 0x20 + c * 2);
  }

  /** Cutting v mod 2^21 at bits 1, 11, 12 and 20. */
  lemma CutJ(v: int)
    ensures v / 0x10_0000 % 2 * 0x10_0000 + v / 0x1000 % 0x100 * 0x1000 + v / 0x800 % 2 * 0x800 + v / 2 % 0x400 * 2
         == (v - v % 2) % 0x20_0000
  {
    DivideTwice(v, 2, 0x400);
    DivideTwice(v, 0x800, 2);
    DivideTwice(v, 0x1000, 0x100);
    var a, b, c, d := v / 0x10_0000 % 2, v / 2 % 0x400, v / 0x800 % 2, v / 0x1000 % 0x100;
    DivideUnique(v - v % 2, 0x20_0000, v / 0x10_0000 / 2, a * 0x10_0000 + d * 0x1000 + c * 0x800 + b * 2);
  }

  lemma ExtendOfResidue(v: int, half: int)
    requires 0 < half && -half <= v < half <= 0x8000_0000
    ensures var x: int := if v < 0 then v + 2 * half else v; v % (2 * half) == x && Extend(x, half) == v
    ensures Signed(Wrap(v)) == v
  {
    DivideUnique(v, 2 * half, if v < 0 then -1 else 0, if v < 0 then v + 2 * half else v);
    DivideUnique(v, TWO_32, if v < 0 then -1 else 0, if v < 0 then v + TWO_32 else v);
  }

  lemma RoundTripI(v: int, low: nat)
    requires -0x800 <= v < 0x800 && low < 0x10_0000
    ensures Signed(SExtImmI(EncodeI(v, low))) == v
  {
    hide SExtImmI;
    SignedImmediates(EncodeI(v, low));
    ReadField(EncodeI(v, low), 0x10_0000, 0x1000, 0, v % 0x1000, low);
    ExtendOfResidue(v, 0x800);
  }

  lemma LayoutOfEncodeS(v: int, mid: nat, low: nat)
    requires -0x800 <= v < 0x800 && mid < 0x2000 && low < 0x80
    ensures LayoutS(EncodeS(v, mid, low)) == v % 0x1000
  {
    hide LayoutS;
    FieldsOfS(v / 0x20 % 0x80, mid, v % 0x20, low);
    CutS(v);
  }

  lemma RoundTripS(v: int, mid: nat, low: nat)
    requires -0x800 <= v < 0x800 && mid < 0x2000 && low < 0x80
    ensures Signed(SExtImmS(EncodeS(v, mid, low))) == v
  {
    hide SExtImmS, EncodeS, LayoutS;
    SignedImmediates(EncodeS(v, mid, low));
    LayoutOfEncodeS(v, mid, low);
    ExtendOfResidue(v, 0x800);
  }

  lemma RoundTripU(v: int, low: nat)
    requires -0x8_0000 <= v < 0x8_0000 && low < 0x1000
    ensures Signed(SExtImmU(EncodeU(v, low))) == v
  {
    hide SExtImmU;
    SignedImmediates(EncodeU(v, low));
    ReadField(EncodeU(v, low), 0x1000, 0x10_0000, 0, v % 0x10_0000, low);
    ExtendOfResidue(v, 0x8_0000);
  }

  lemma LayoutOfEncodeB(v: int, mid: nat, low: nat)
    requires -0x1000 <= v < 0x1000 && mid < 0x2000 && low < 0x80
    ensures LayoutB(EncodeB(v, mid, low)) == (v - v % 2) % 0x2000
  {
    hide LayoutB;
    FieldsOfB(v / 0x1000 % 2, v / 0x20 % 0x40, mid, v / 2 % 0x10, v / 0x800 % 2, low);
    CutB(v);
  }

  /** Branch offsets come back with bit 0 cleared: the identity exactly on even offsets. */
  lemma RoundTripB(v: int, mid: nat, low: nat)
    requires -0x1000 <= v < 0x1000 && mid < 0x2000 && low < 0x80
    ensures Signed(SExtImmB(EncodeB(v, mid, low))) == v - v % 2
  {
    hide SExtImmB, EncodeB, LayoutB, Wrap, Signed;
    var e := v - v % 2;
    assert -0x1000 <= e < 0x1000;
    SignedImmediates(EncodeB(v, mid, low));
    LayoutOfEncodeB(v, mid, low);
    ExtendOfResidue(e, 0x1000);
  }

  lemma WrittenOffset(e: int)
    requires -0x10_0000 <= e < 0x10_0000
    ensures Signed(Wrap(JalAsWritten(e % 0x20_0000)))
         == if e >= 0x8_0000 then e - 0x10_0000 else if e < -0x8_0000 then e + 0x20_0000 else e
  {
  }

  /** jal: the identity exactly on even offsets in [-2^19, 2^19), and how far off elsewhere. */
  lemma RoundTripJ(v: int, low: nat)
    requires -0x10_0000 <= v < 0x10_0000 && low < 0x1000
    ensures var decoded := Signed(SExtImmJ(EncodeJ(v, low)));
      && (decoded == v <==> v % 2 == 0 && -0x8_0000 <= v < 0x8_0000)
      && (v % 2 == 0 && v >= 0x8_0000 ==> decoded == v - 0x10_0000)
      && (v % 2 == 0 && v < -0x8_0000 ==> decoded == v + 0x20_0000)
  {
    hide SExtImmJ, LayoutJ;
    SExtImmJAsWritten(EncodeJ(v, low));
    FieldsOfJ(v / 0x10_0000 % 2, v / 2 % 0x400, v / 0x800 % 2, v / 0x1000 % 0x100, low);
    CutJ(v);
    WrittenOffset(v - v % 2);
  }
}
