/**
 Machine words as integers.  The C source computes in uint32_t, so the width is
 explicit: Wrap is the conversion to 32 bits, Signed the reinterpretation as
 int32_t.  The bitwise operators are defined digit by digit on naturals; the
 lemmas relate the masks and shifts that the source is written with to bits and
 to arithmetic on fields.
 */
module Words {
  type u8 = x: int | 0 <= x < 0x100
  type u32 = x: int | 0 <= x < 0x1_0000_0000

  const TWO_32: int := 0x1_0000_0000
  const TWO_64: int := 0x1_0000_0000_0000_0000

  datatype Option<+T> = None | Some(value: T)

  function Wrap(x: int): u32 {
    x % TWO_32
  }

  function Signed(w: u32): int {
    if w < 0x8000_0000 then w else w - TWO_32
  }

  function Pow2(n: nat): (p: nat)
    ensures p >= 1
  {
    if n == 0 then 1 else 2 * Pow2(n - 1)
  }

  predicate Bit(x: nat, i: nat)
    decreases i
  {
    if i == 0 then x % 2 == 1 else Bit(x / 2, i - 1)
  }

  function BitValue(b: bool): nat {
    if b then 1 else 0
  }

  /** The `len` bits of `x` from bit `lo` up. */
  function Field(x: nat, lo: nat, len: nat): nat {
    x / Pow2(lo) % Pow2(len)
  }

  // ----- the C operators -----

  function And(a: nat, b: nat): (r: nat)
    ensures r <= a && r <= b
  {
    if a == 0 || b == 0 then 0
    else 2 * And(a / 2, b / 2) + BitValue(a % 2 == 1 && b % 2 == 1)
  }

  function Or(a: nat, b: nat): (r: nat)
    ensures a <= r <= a + b && b <= r
  {
    if a == 0 then b
    else if b == 0 then a
    else 2 * Or(a / 2, b / 2) + BitValue(a % 2 == 1 || b % 2 == 1)
  }

  function Xor(a: nat, b: nat): (r: nat)
    ensures r <= a + b
  {
    if a == 0 then b
    else if b == 0 then a
    else 2 * Xor(a / 2, b / 2) + BitValue(a % 2 != b % 2)
  }

  function Shr(a: nat, k: nat): (r: nat)
    ensures r <= a
  {
    if k == 0 then a else Shr(a / 2, k - 1)
  }

  function Shl(a: nat, k: nat): u32 {
    Wrap(a * Pow2(k))
  }

  function Not32(a: u32): u32 {
    TWO_32 - 1 - a
  }

  function Or32(a: u32, b: u32): u32 {
    Pow2Values();
    OrBound(a, b, 32);
    Or(a, b)
  }

  function Xor32(a: u32, b: u32): u32 {
    Pow2Values();
    XorBound(a, b, 32);
    Xor(a, b)
  }

  // ----- arithmetic facts -----

  lemma NonzeroMultiple(x: int, d: int)
    requires x != 0 && d > 0
    ensures x * d >= d || x * d <= -d
  {
  }

  lemma DivideUnique(a: int, d: int, q: int, m: int)
    requires d > 0 && 0 <= m < d && a == q * d + m
    ensures a / d == q && a % d == m
  {
    var q' := a / d;
    assert (q - q') * d == q * d - q' * d;
    if q != q' { NonzeroMultiple(q - q', d); }
  }

  lemma HalveThenDivide(a: nat, p: nat)
    requires p > 0
    ensures a / 2 / p == a / (2 * p)
  {
    var h := a / 2;
    var q := h / p;
    assert q * (2 * p) == 2 * (q * p);
    DivideUnique(a, 2 * p, q, 2 * (h % p) + a % 2);
  }

  lemma Pow2Values()
    ensures Pow2(0) == 0x1 && Pow2(1) == 0x2 && Pow2(2) == 0x4 && Pow2(3) == 0x8
    ensures Pow2(4) == 0x10 && Pow2(5) == 0x20 && Pow2(6) == 0x40 && Pow2(7) == 0x80
    ensures Pow2(8) == 0x100 && Pow2(9) == 0x200 && Pow2(10) == 0x400 && Pow2(11) == 0x800
    ensures Pow2(12) == 0x1000 && Pow2(13) == 0x2000 && Pow2(14) == 0x4000 && Pow2(15) == 0x8000
    ensures Pow2(16) == 0x10000 && Pow2(17) == 0x20000 && Pow2(18) == 0x40000 && Pow2(19) == 0x80000
    ensures Pow2(20) == 0x100000 && Pow2(21) == 0x200000 && Pow2(22) == 0x400000 && Pow2(23) == 0x800000
    ensures Pow2(24) == 0x1000000 && Pow2(25) == 0x2000000 && Pow2(26) == 0x4000000 && Pow2(27) == 0x8000000
    ensures Pow2(28) == 0x10000000 && Pow2(29) == 0x20000000 && Pow2(30) == 0x40000000 && Pow2(31) == 0x80000000
    ensures Pow2(32) == 0x100000000
  {
    assert Pow2(4) == 0x10 && Pow2(5) == 0x20 && Pow2(6) == 0x40 && Pow2(7) == 0x80;
    assert Pow2(8) == 0x100 && Pow2(9) == 0x200 && Pow2(10) == 0x400 && Pow2(11) == 0x800;
    assert Pow2(12) == 0x1000 && Pow2(13) == 0x2000 && Pow2(14) == 0x4000 && Pow2(15) == 0x8000;
    assert Pow2(16) == 0x10000 && Pow2(17) == 0x20000 && Pow2(18) == 0x40000 && Pow2(19) == 0x80000;
    assert Pow2(20) == 0x100000 && Pow2(21) == 0x200000 && Pow2(22) == 0x400000 && Pow2(23) == 0x800000;
    assert Pow2(24) == 0x1000000 && Pow2(25) == 0x2000000 && Pow2(26) == 0x4000000 && Pow2(27) == 0x8000000;
    assert Pow2(28) == 0x10000000 && Pow2(29) == 0x20000000 && Pow2(30) == 0x40000000 && Pow2(31) == 0x80000000;
  }

  lemma {:induction false} Pow2Add(i: nat, j: nat)
    ensures Pow2(i + j) == Pow2(i) * Pow2(j)
  {
    if i != 0 {
      Pow2Add(i - 1, j);
      assert 2 * (Pow2(i - 1) * Pow2(j)) == 2 * Pow2(i - 1) * Pow2(j);
    }
  }

  lemma {:induction false} ShrIsDivision(a: nat, k: nat)
    ensures Shr(a, k) == a / Pow2(k)
  {
    if k != 0 {
      ShrIsDivision(a / 2, k - 1);
      HalveThenDivide(a, Pow2(k - 1));
    }
  }

  // ----- bits of the operators -----

  lemma {:induction false} BitOfAnd(a: nat, b: nat, i: nat)
    ensures Bit(And(a, b), i) == (Bit(a, i) && Bit(b, i))
  {
    if i != 0 { BitOfAnd(a / 2, b / 2, i - 1); }
    if a == 0 || b == 0 { BitOfZero(i); }
  }

  lemma {:induction false} BitOfOr(a: nat, b: nat, i: nat)
    ensures Bit(Or(a, b), i) == (Bit(a, i) || Bit(b, i))
  {
    if a == 0 || b == 0 {
      BitOfZero(i);
    } else if i != 0 {
      BitOfOr(a / 2, b / 2, i - 1);
    }
  }

  lemma {:induction false} BitOfXor(a: nat, b: nat, i: nat)
    ensures Bit(Xor(a, b), i) == (Bit(a, i) != Bit(b, i))
  {
    if a == 0 || b == 0 {
      BitOfZero(i);
    } else if i != 0 {
      BitOfXor(a / 2, b / 2, i - 1);
    }
  }

  lemma {:induction false} BitOfZero(i: nat)
    ensures !Bit(0, i)
  {
    if i != 0 { BitOfZero(i - 1); }
  }

  lemma {:induction false} BitOfPow2(k: nat, i: nat)
    ensures Bit(Pow2(k), i) == (i == k)
  {
    if k == 0 {
      if i != 0 { BitOfZero(i - 1); }
    } else if i != 0 {
      BitOfPow2(k - 1, i - 1);
    }
  }

  lemma {:induction false} BitOfShr(a: nat, k: nat, i: nat)
    ensures Bit(Shr(a, k), i) == Bit(a, i + k)
  {
    if k != 0 { BitOfShr(a / 2, k - 1, i); }
  }

  lemma {:induction false} BitOfComplement(a: nat, n: nat, i: nat)
    requires a < Pow2(n) && i < n
    ensures Bit(Pow2(n) - 1 - a, i) == !Bit(a, i)
  {
    if i != 0 {
      BitOfComplement(a / 2, n - 1, i - 1);
      assert (Pow2(n) - 1 - a) / 2 == Pow2(n - 1) - 1 - a / 2;
    }
  }

  lemma {:induction false} BitBeyond(a: nat, n: nat, i: nat)
    requires a < Pow2(n) <= Pow2(i)
    ensures !Bit(a, i)
    decreases i
  {
    if i != 0 {
      if n == 0 { BitOfZero(i); } else { BitBeyond(a / 2, n - 1, i - 1); }
    }
  }

  lemma {:induction false} BitsDetermine(a: nat, b: nat, n: nat)
    requires a < Pow2(n) && b < Pow2(n)
    requires forall i: nat :: i < n ==> Bit(a, i) == Bit(b, i)
    ensures a == b
  {
    if n != 0 {
      forall i: nat | i < n - 1 ensures Bit(a / 2, i) == Bit(b / 2, i) {
        assert Bit(a, i + 1) == Bit(b, i + 1);
      }
      BitsDetermine(a / 2, b / 2, n - 1);
      assert Bit(a, 0) == Bit(b, 0);
    }
  }

  lemma {:induction false} OrBound(a: nat, b: nat, n: nat)
    requires a < Pow2(n) && b < Pow2(n)
    ensures Or(a, b) < Pow2(n)
  {
    if n != 0 { OrBound(a / 2, b / 2, n - 1); }
  }

  lemma {:induction false} XorBound(a: nat, b: nat, n: nat)
    requires a < Pow2(n) && b < Pow2(n)
    ensures Xor(a, b) < Pow2(n)
  {
    if n != 0 { XorBound(a / 2, b / 2, n - 1); }
  }

  // ----- masks -----

  lemma HalveRemainder(a: nat, p: nat)
    requires p > 0
    ensures a % (2 * p) == 2 * (a / 2 % p) + a % 2
  {
    var q := a / 2 / p;
    assert q * (2 * p) == 2 * (q * p);
    DivideUnique(a, 2 * p, q, 2 * (a / 2 % p) + a % 2);
  }

  lemma AndHalves(a: nat, b: nat)
    ensures And(a, b) == 2 * And(a / 2, b / 2) + BitValue(a % 2 == 1 && b % 2 == 1)
  {
  }

  lemma LowMaskStep(a: nat, p: nat)
    requires p > 0 && And(a / 2, p - 1) == a / 2 % p
    ensures And(a, 2 * p - 1) == a % (2 * p)
  {
    HalveRemainder(a, p);
    AndHalves(a, 2 * p - 1);
    assert (2 * p - 1) / 2 == p - 1 && (2 * p - 1) % 2 == 1;
  }

  lemma {:induction false} AndLowMask(a: nat, k: nat)
    ensures And(a, Pow2(k) - 1) == a % Pow2(k)
  {
    if k != 0 {
      AndLowMask(a / 2, k - 1);
      LowMaskStep(a, Pow2(k - 1));
    }
  }

  lemma AndEven(a: nat, b: nat)
    ensures And(a, 2 * b) == 2 * And(a / 2, b)
  {
    AndHalves(a, 2 * b);
  }

  lemma DoubleFactor(m: int, p: int)
    ensures m * (2 * p) == 2 * (m * p)
  {
  }

  /** Masking with `len` ones from bit `lo` up keeps that field in place. */
  lemma {:induction false} AndFieldMask(a: nat, lo: nat, len: nat)
    ensures And(a, (Pow2(len) - 1) * Pow2(lo)) == Field(a, lo, len) * Pow2(lo)
  {
    if lo == 0 {
      AndLowMask(a, len);
    } else {
      AndFieldMask(a / 2, lo - 1, len);
      HalveThenDivide(a, Pow2(lo - 1));
      DoubleFactor(Pow2(len) - 1, Pow2(lo - 1));
      DoubleFactor(Field(a, lo, len), Pow2(lo - 1));
      AndEven(a, (Pow2(len) - 1) * Pow2(lo - 1));
    }
  }

  lemma {:induction false} BitOfScale(a: nat, k: nat, i: nat)
    ensures Bit(a * Pow2(k), i) == (i >= k && Bit(a, i - k))
  {
    if k != 0 {
      DoubleFactor(a, Pow2(k - 1));
      if i != 0 { BitOfScale(a, k - 1, i - 1); }
    }
  }

  lemma {:induction false} AndPow2(a: nat, i: nat)
    ensures And(a, Pow2(i)) == if Bit(a, i) then Pow2(i) else 0
  {
    if i == 0 {
      AndHalves(a, 1);
    } else {
      AndPow2(a / 2, i - 1);
      AndEven(a, Pow2(i - 1));
    }
  }

  lemma {:induction false} TopBit(x: nat, n: nat)
    requires x < 2 * Pow2(n)
    ensures Bit(x, n) == (x >= Pow2(n))
  {
    if n != 0 { TopBit(x / 2, n - 1); }
  }

  /** The shape `(w >> lo) & ones`. */
  lemma ShiftThenMask(a: nat, lo: nat, len: nat)
    ensures And(Shr(a, lo), Pow2(len) - 1) == Field(a, lo, len)
  {
    ShrIsDivision(a, lo);
    AndLowMask(a / Pow2(lo), len);
  }

  lemma {:induction false} OrCommutes(a: nat, b: nat)
    ensures Or(a, b) == Or(b, a)
  {
    if a != 0 && b != 0 { OrCommutes(a / 2, b / 2); }
  }

  lemma OrHalves(a: nat, b: nat)
    ensures Or(a, b) == 2 * Or(a / 2, b / 2) + BitValue(a % 2 == 1 || b % 2 == 1)
  {
  }

  lemma OrEven(a: nat, b: nat)
    ensures Or(2 * a, 2 * b) == 2 * Or(a, b)
  {
    OrHalves(2 * a, 2 * b);
  }

  lemma {:induction false} OrAssociative(a: nat, b: nat, c: nat)
    ensures Or(Or(a, b), c) == Or(a, Or(b, c))
    decreases a + b + c
  {
    hide Or;
    OrHalves(a, b);
    OrHalves(b, c);
    OrHalves(Or(a, b), c);
    OrHalves(a, Or(b, c));
    if a + b + c != 0 {
      OrAssociative(a / 2, b / 2, c / 2);
    }
  }

  lemma {:induction false} OrScale(a: nat, b: nat, j: nat)
    ensures Or(a * Pow2(j), b * Pow2(j)) == Or(a, b) * Pow2(j)
  {
    if j != 0 {
      OrScale(a, b, j - 1);
      DoubleFactor(a, Pow2(j - 1));
      DoubleFactor(b, Pow2(j - 1));
      DoubleFactor(Or(a, b), Pow2(j - 1));
      OrEven(a * Pow2(j - 1), b * Pow2(j - 1));
    }
  }

  /** Fields that do not overlap are joined by `|` as by `+`. */
  lemma {:induction false} OrDisjoint(a: nat, b: nat, j: nat)
    requires a < Pow2(j) && b % Pow2(j) == 0
    ensures Or(a, b) == a + b
  {
    if j != 0 {
      var p, q := Pow2(j - 1), b / Pow2(j);
      assert b == q * (2 * p) == 2 * (q * p);
      DivideUnique(b / 2, p, q, 0);
      OrDisjoint(a / 2, b / 2, j - 1);
    }
  }
}
