/** The core's results are the manual's: shifts and logic bit by bit, division by rounding toward zero. */
module IsaArithmetic {
  import opened Words
  import opened Immediates
  import opened Alu
  import opened Control
  import opened Interrupts
  import opened Isa
  import Core

  // ----- bitwise results -----

  lemma {:induction false} FromBitsOf(f: nat -> bool, v: nat, lo: nat, n: nat)
    requires v < Pow2(n) && forall i: nat :: i < n ==> f(lo + i) == Bit(v, i)
    ensures FromBits(f, lo, n) == v
    decreases n
  {
    if n != 0 {
      assert f(lo + 0) == Bit(v, 0);
      forall i: nat | i < n - 1 ensures f(lo + 1 + i) == Bit(v / 2, i) {
        assert f(lo + (i + 1)) == Bit(v, i + 1);
      }
      FromBitsOf(f, v / 2, lo + 1, n - 1);
    }
  }

  lemma FromBits32Of(f: nat -> bool, v: u32)
    requires forall i: nat :: i < 32 ==> f(i) == Bit(v, i)
    ensures FromBits32(f) == v
  {
    hide Bit, FromBits;
    Pow2Values();
    FromBitsOf(f, v, 0, 32);
  }

  lemma {:induction false} BitOfFromBits(f: nat -> bool, lo: nat, n: nat, i: nat)
    requires i < n
    ensures Bit(FromBits(f, lo, n), i) == f(lo + i)
    decreases n
  {
    if i != 0 { BitOfFromBits(f, lo + 1, n - 1, i - 1); }
  }

  /** mret is the manual's exactly when MPIE is already set: the source leaves it as it is. */
  lemma MretAgrees(m: u32)
    ensures FromBits32(MretBits(m)) == SetBit(m, MIE, GetBit(m, MPIE)) <==> Bit(m, MPIE)
  {
    hide Bit, FromBits, SetBit, GetBit;
    var after := SetBit(m, MIE, GetBit(m, MPIE));
    GetBitBits(m, MPIE);
    SetBitBits(m, MIE, GetBit(m, MPIE));
    forall i: nat | i < 32 ensures Bit(after, i) == if i == MIE then Bit(m, MPIE) else Bit(m, i) {
      assert Bit(after, i) <==> i in Bits(after);
      assert Bit(m, i) <==> i in Bits(m);
      assert Bit(m, MPIE) <==> MPIE in Bits(m);
    }
    if Bit(m, MPIE) {
      FromBits32Of(MretBits(m), after);
    } else {
      BitOfFromBits(MretBits(m), 0, 32, MPIE);
    }
  }

  lemma LogicAgrees(a: u32, b: u32)
    ensures FromBits32(BothBits(a, b)) == And(a, b)
    ensures FromBits32(EitherBit(a, b)) == Or32(a, b)
    ensures FromBits32(OneBit(a, b)) == Xor32(a, b)
  {
    hide FromBits32, And, Or, Xor, Bit;
    forall i: nat ensures BothBits(a, b)(i) == Bit(And(a, b), i) { BitOfAnd(a, b, i); }
    forall i: nat ensures EitherBit(a, b)(i) == Bit(Or32(a, b), i) { BitOfOr(a, b, i); }
    forall i: nat ensures OneBit(a, b)(i) == Bit(Xor32(a, b), i) { BitOfXor(a, b, i); }
    FromBits32Of(BothBits(a, b), And(a, b));
    FromBits32Of(EitherBit(a, b), Or32(a, b));
    FromBits32Of(OneBit(a, b), Xor32(a, b));
  }

  lemma {:induction false} BitOfResidue(x: nat, n: nat, i: nat)
    requires i < n
    ensures Bit(x % Pow2(n), i) == Bit(x, i)
    decreases i
  {
    HalveRemainder(x, Pow2(n - 1));
    if i != 0 { BitOfResidue(x / 2, n - 1, i - 1); }
  }

  lemma LeftShiftAgrees(a: u32, k: nat)
    requires k < 32
    ensures FromBits32(LeftBits(a, k)) == Shl(a, k)
  {
    hide FromBits32, Bit, Pow2;
    Pow2Values();
    forall i: nat | i < 32 ensures LeftBits(a, k)(i) == Bit(Shl(a, k), i) {
      BitOfScale(a, k, i);
      BitOfResidue(a * Pow2(k), 32, i);
    }
    FromBits32Of(LeftBits(a, k), Shl(a, k));
  }

  lemma NoHighBits(a: u32, i: nat)
    requires i >= 32
    ensures !Bit(a, i)
  {
    hide Bit, Pow2;
    Pow2Values();
    Pow2Add(32, i - 32);
    NonzeroMultiple(Pow2(i - 32), Pow2(32));
    BitBeyond(a, 32, i);
  }

  lemma RightShiftAgrees(a: u32, k: nat)
    requires k < 32
    ensures FromBits32(RightBits(a, k, false)) == Shr(a, k)
  {
    hide FromBits32, Bit, Shr;
    forall i: nat | i < 32 ensures RightBits(a, k, false)(i) == Bit(Shr(a, k), i) {
      BitOfShr(a, k, i);
      if i + k >= 32 { NoHighBits(a, i + k); }
    }
    FromBits32Of(RightBits(a, k, false), Shr(a, k));
  }

  lemma SarByParts(a: u32, k: nat)
    ensures Sar(a, k) == if a < 0x8000_0000 then Shr(a, k) else Not32(Shr(Not32(a), k))
  {
    hide Pow2, Shr;
    ShrIsDivision(a, k);
    ShrIsDivision(Not32(a), k);
    if a >= 0x8000_0000 {
      var n, p: int := Not32(a), Pow2(k);
      DivideUnique(-1 - n, p, -1 - n / p, p - 1 - n % p);
    }
  }

  lemma SignBit(a: u32)
    ensures Bit(a, 31) <==> a >= 0x8000_0000
  {
    Pow2Values();
    TopBit(a, 31);
  }

  lemma ArithmeticShiftAgrees(a: u32, k: nat)
    requires k < 32
    ensures FromBits32(RightBits(a, k, Bit(a, 31))) == Sar(a, k)
  {
    hide FromBits32, Bit, Shr, Sar, Pow2;
    SarByParts(a, k);
    SignBit(a);
    if a < 0x8000_0000 {
      RightShiftAgrees(a, k);
    } else {
      var n := Not32(a);
      Pow2Values();
      forall i: nat | i < 32 ensures RightBits(a, k, true)(i) == Bit(Not32(Shr(n, k)), i) {
        BitOfComplement(Shr(n, k), 32, i);
        BitOfShr(n, k, i);
        if i + k >= 32 { NoHighBits(n, i + k); } else { BitOfComplement(a, 32, i + k); }
      }
      FromBits32Of(RightBits(a, k, true), Sar(a, k));
    }
  }

  // ----- division -----

  lemma DivideThenMultiply(n: real, d: real)
    requires d != 0.0
    ensures n / d * d == n
  {
  }

  lemma RealProduct(q: int, d: int)
    ensures (q * d) as real == q as real * d as real
  {
  }

  lemma RealDistributes(x: real, q: real, d: real)
    ensures (x - q) * d == x * d - q * d
  {
  }

  lemma Fraction(x: real, q: real, d: real, n: real, r: real)
    requires x * d == n && n == q * d + r && 0.0 <= r < d
    ensures 0.0 <= x - q < 1.0
  {
    var e := x - q;
    assert e * d == r by { RealDistributes(x, q, d); }
    UnitFraction(e, d);
  }

  lemma FloorBetween(x: real, q: int)
    requires 0.0 <= x - q as real < 1.0
    ensures x.Floor == q
  {
  }

  lemma FloorFromRemainder(n: int, d: int, q: int, r: int)
    requires 0 <= r < d && n == q * d + r
    ensures (n as real / d as real).Floor == q
  {
    var nr, dr, qr, rr := n as real, d as real, q as real, r as real;
    var x := nr / dr;
    assert nr == qr * dr + rr by { RealProduct(q, d); }
    assert x * dr == nr by { DivideThenMultiply(nr, dr); }
    assert 0.0 <= x - qr < 1.0 by { Fraction(x, qr, dr, nr, rr); }
    FloorBetween(x, q);
  }

  lemma FloorOfQuotient(n: nat, d: nat)
    requires d > 0
    ensures (n as real / d as real).Floor == n / d
  {
    FloorFromRemainder(n, d, n / d, n % d);
  }

  lemma UnitFraction(e: real, d: real)
    requires d > 0.0 && 0.0 <= e * d < d
    ensures 0.0 <= e < 1.0
  {
  }

  lemma RealSigns(n: real, d: real)
    requires d > 0.0
    ensures (-n) / d == -(n / d) && n / (-d) == -(n / d) && (-n) / (-d) == n / d
  {
  }

  lemma NonNegativeQuotient(n: real, d: real)
    requires n >= 0.0 && d > 0.0
    ensures n / d >= 0.0
  {
  }

  lemma QuotientIsTruncDiv(a: int, b: int)
    requires b != 0
    ensures Quotient(a, b) == TruncDiv(a, b)
  {
    var n, d := Abs(a), Abs(b);
    FloorOfQuotient(n, d);
    RealSigns(n as real, d as real);
    NonNegativeQuotient(n as real, d as real);
  }

  lemma DivisionAgrees(a: u32, b: u32)
    ensures Value(DIV, a, b) == Div(a, b)
    ensures Value(REM, a, b) == Rem(a, b)
  {
    hide Quotient, TruncDiv;
    if b != 0 {
      QuotientIsTruncDiv(Signed(a), Signed(b));
      var q := TruncDiv(Signed(a), Signed(b));
      assert Signed(b) * q == q * Signed(b);
    }
  }

  lemma UnsignedDivisionAgrees(a: u32, b: u32)
    ensures Value(DIVU, a, b) == Divu(a, b)
    ensures Value(REMU, a, b) == Remu(a, b)
  {
    hide Quotient;
    if b != 0 {
      QuotientIsTruncDiv(a, b);
      QuotientBound(a, b);
      assert a == b * (a / b) + a % b;
    }
  }

  // ----- the two operation tables -----

  lemma AddAgrees(a: u32, b: u32)
    ensures Value(ADD, a, b) == Wrap(a + b) && Value(SUB, a, b) == Wrap(a - b)
  {
  }

  lemma MulAgrees(a: u32, b: u32)
    ensures Value(MUL, a, b) == Mul(a, b)
  {
    hide Mul, Signed;
    LowWord(a, b);
    LowWordSigned(a, b);
  }

  lemma HighWord(p: int)
    requires -0x8000_0000_0000_0000 <= p < 0x8000_0000_0000_0000
    ensures Wrap(Signed64(p) / TWO_32) == Wrap(p / TWO_32)
  {
    HighAndLow(p);
  }

  lemma HighWordsAgree(a: u32, b: u32)
    ensures Value(MULH, a, b) == Mulh(a, b)
    ensures Value(MULHSU, a, b) == Mulhsu(a, b)
    ensures Value(MULHU, a, b) == Mulhu(a, b)
  {
    hide Signed64, Signed, Wrap;
    ProductBounds(a, b);
    HighWord(Signed(a) * Signed(b));
    HighWord(Signed(a) * b);
    SmallResidue(a * b);
  }

  lemma SmallResidue(p: int)
    requires 0 <= p < TWO_64
    ensures p % TWO_64 == p
  {
  }

  lemma ShamtIsResidue(b: u32)
    ensures And(b, 0x1f) == b % 32
  {
    hide And;
    AndLowMask(b, 5);
  }

  lemma BitwiseAgrees(a: u32, b: u32)
    ensures Value(SLL, a, b) == Shl(a, And(b, 0x1f))
    ensures Value(SRL, a, b) == Shr(a, And(b, 0x1f))
    ensures Value(SRA, a, b) == Sar(a, And(b, 0x1f))
    ensures Value(AND, a, b) == And(a, b)
    ensures Value(OR, a, b) == Or32(a, b)
    ensures Value(XOR, a, b) == Xor32(a, b)
  {
    hide FromBits32, And, Or, Xor, Shr, Shl, Sar, Bit;
    LogicAgrees(a, b);
    ShamtIsResidue(b);
    LeftShiftAgrees(a, b % 32);
    RightShiftAgrees(a, b % 32);
    ArithmeticShiftAgrees(a, b % 32);
  }

  lemma ComparisonsAgree(a: u32, b: u32)
    ensures Value(SLT, a, b) == (if Signed(a) < Signed(b) then 1 else 0)
    ensures Value(SLTU, a, b) == (if a < b then 1 else 0)
  {
  }

  /** Every legal OP encoding computes the manual's value. */
  lemma RegisterOpAgrees(funct3: u32, funct7: u32, a: u32, b: u32)
    requires DecodeOp(funct3, funct7).Some?
    ensures Core.RegisterOp(funct3, funct7, a, b) == Some(Value(DecodeOp(funct3, funct7).value, a, b))
  {
    hide Value, And, Or, Xor, Shr, Shl, Sar, Mul, Mulh, Mulhsu, Mulhu, Div, Divu, Rem, Remu, Wrap, Signed;
    if funct7 == 1 {
      MulAgrees(a, b);
      HighWordsAgree(a, b);
      DivisionAgrees(a, b);
      UnsignedDivisionAgrees(a, b);
    } else {
      AddAgrees(a, b);
      BitwiseAgrees(a, b);
      ComparisonsAgree(a, b);
    }
  }

  /** The second operand the manual gives an OP-IMM instruction. */
  function ImmOperand(w: u32, op: AluOp): int {
    if op in {SLL, SRL, SRA} then w / 0x10_0000 % 0x20 else Extend(LayoutI(w), 0x800)
  }

  /** sltiu compares with the immediate as an unsigned 12-bit number, where the manual sign-extends
      it first: the results differ for a negative immediate on exactly these operands. */
  predicate SltiuDiffers(w: u32, a: u32) {
    0x800 <= LayoutI(w) <= a < LayoutI(w) + 0xFFFF_F000
  }

  lemma SltiuAgrees(w: u32, a: u32)
    ensures (if a < LayoutI(w) then 1 else 0) == Value(SLTU, a, Wrap(Extend(LayoutI(w), 0x800)))
        <==> !SltiuDiffers(w, a)
  {
  }

  lemma ShiftImmediateAgrees(w: u32, a: u32)
    requires w / 0x1000 % 8 in {1, 5} && DecodeOpImm(w / 0x1000 % 8, w / 0x200_0000).Some?
    ensures Core.ImmediateOp(w, a)
         == Some(Value(DecodeOpImm(w / 0x1000 % 8, w / 0x200_0000).value, a, Wrap(w / 0x10_0000 % 0x20)))
  {
    hide Value, And, Or32, Xor32, Shr, Shl, Sar, Funct3, Funct7, ImmI, SExtImmI, LayoutI, Wrap, Signed;
    FieldsAtLiterals(w);
    var b := Wrap(w / 0x10_0000 % 0x20);
    BitwiseAgrees(a, b);
    ShamtIsResidue(b);
    ShamtIsResidue(ImmI(w));
    ShamtField(w);
  }

  lemma PlainImmediateAgrees(w: u32, a: u32)
    requires w / 0x1000 % 8 !in {1, 5}
    ensures var op, b := DecodeOpImm(w / 0x1000 % 8, w / 0x200_0000), Wrap(Extend(LayoutI(w), 0x800));
      op.Some? ==>
        && Core.ImmediateOp(w, a).Some?
        && (Core.ImmediateOp(w, a).value == Value(op.value, a, b) <==> !(op.value == SLTU && SltiuDiffers(w, a)))
  {
    hide Value, And, Or32, Xor32, Shr, Shl, Sar, Funct3, Funct7, ImmI, SExtImmI, LayoutI, Extend, Wrap, Signed,
         SltiuDiffers;
    FieldsAtLiterals(w);
    SignedImmediates(w);
    var b := Wrap(Extend(LayoutI(w), 0x800));
    SltiuAgrees(w, a);
    AddAgrees(a, b);
    ComparisonsAgree(a, b);
    BitwiseAgrees(a, b);
  }

  /** Every legal OP-IMM encoding computes the manual's value, but for sltiu. */
  lemma ImmediateOpAgrees(w: u32, a: u32)
    requires DecodeOpImm(w / 0x1000 % 8, w / 0x200_0000).Some?
    ensures var op := DecodeOpImm(w / 0x1000 % 8, w / 0x200_0000).value;
      && Core.ImmediateOp(w, a).Some?
      && (Core.ImmediateOp(w, a).value == Value(op, a, Wrap(ImmOperand(w, op)))
          <==> !(op == SLTU && SltiuDiffers(w, a)))
  {
    hide Value, Core.ImmediateOp, LayoutI, Extend, Wrap, SltiuDiffers;
    if w / 0x1000 % 8 in {1, 5} { ShiftImmediateAgrees(w, a); } else { PlainImmediateAgrees(w, a); }
  }

  lemma ShamtField(w: u32)
    ensures LayoutI(w) % 32 == w / 0x10_0000 % 0x20 == Wrap(w / 0x10_0000 % 0x20) % 32
  {
  }
}
