/** Hexadecimal as gdb_stub/rsp.h reads and writes it. */
module Hex {
  import opened Words
  import opened Immediates

  predicate IsHexDigit(h: u8) {
    0x30 <= h <= 0x39 || 0x61 <= h <= 0x66 || 0x41 <= h <= 0x46
  }

  /** None stands for RSP_FATAL. */
  function FromHexDigit(h: u8): (r: Option<u8>)
    ensures r.Some? <==> IsHexDigit(h)
    ensures r.Some? ==> r.value < 16
  {
    if 0x30 <= h <= 0x39 then Some(h - 0x30)
    else if 0x61 <= h <= 0x66 then Some(h - 0x61 + 10)
    else if 0x41 <= h <= 0x46 then Some(h - 0x41 + 10)
    else None
  }

  const LOWER := "0123456789abcdef"
  const UPPER := "0123456789ABCDEF"

  /** A byte reads as v exactly when it is the v-th digit of either case. */
  lemma DigitReads(h: u8, v: u8)
    ensures FromHexDigit(h) == Some(v) <==> v < 16 && (h == LOWER[v] as int || h == UPPER[v] as int)
  {
  }

  function ToHexDigit(i: u8): Option<u8> {
    if i > 0xf then None else Some(if i < 10 then 0x30 + i else 0x61 + i - 10)
  }

  function HexToU8(high: u8, low: u8): (r: Option<u8>)
    ensures r.Some? <==> IsHexDigit(high) && IsHexDigit(low)
  {
    match (FromHexDigit(high), FromHexDigit(low))
    case (Some(a), Some(b)) =>
      NibblesJoin(a, b);
      Some(Or(a * 0x10, b))
    case _ => None
  }

  lemma NibblesJoin(a: u8, b: u8)
    requires a < 16 && b < 16
    ensures Or(a * 0x10, b) == a * 0x10 + b
  {
    hide Or;
    OrCommutes(a * 0x10, b);
    Join(b, a * 0x10, 4, 0x10, a);
  }

  /** The two lower-case digits of a byte. */
  function Digits(b: u8): (s: seq<u8>)
    ensures |s| == 2
  {
    [ToHexDigit(b / 0x10).value, ToHexDigit(b % 0x10).value]
  }

  lemma DigitsRoundTrip(b: u8)
    ensures HexToU8(Digits(b)[0], Digits(b)[1]) == Some(b)
    ensures IsHexDigit(Digits(b)[0]) && IsHexDigit(Digits(b)[1])
  {
    hide Or;
    NibblesJoin(b / 0x10, b % 0x10);
  }

  /** The byte a pair of digits of either case stands for. */
  lemma HexToU8Value(high: u8, low: u8)
    requires IsHexDigit(high) && IsHexDigit(low)
    ensures HexToU8(high, low) == Some(FromHexDigit(high).value * 0x10 + FromHexDigit(low).value)
  {
    hide Or;
    NibblesJoin(FromHexDigit(high).value, FromHexDigit(low).value);
  }

  // ----- words -----

  /** The loop of rsp_hex_to_u32 from byte i; byte i is shifted left by i * step bits. */
  function AssembleFrom(h: seq<u8>, step: nat, i: nat, ret: u32): Option<u32>
    requires |h| == 8 && i <= 4
    decreases 4 - i
  {
    if i == 4 then Some(ret)
    else match HexToU8(h[2 * i], h[2 * i + 1])
      case None => None
      case Some(b) => AssembleFrom(h, step, i + 1, Or32(ret, Shl(b, i * step)))
  }

  /** As written: the shift is i * 4. */
  function HexToU32(h: seq<u8>): Option<u32>
    requires |h| == 8
  {
    AssembleFrom(h, 4, 0, 0)
  }

  /** rsp_packet_append_u32: four bytes, least significant first. */
  function WordDigits(w: u32): (s: seq<u8>)
    ensures |s| == 8
  {
    Digits(w % 0x100) + Digits(w / 0x100 % 0x100) + Digits(w / 0x1_0000 % 0x100) + Digits(w / 0x100_0000)
  }

  lemma AssembleBytes(h: seq<u8>, step: nat, a: u8, b: u8, c: u8, d: u8)
    requires |h| == 8
    requires HexToU8(h[0], h[1]) == Some(a) && HexToU8(h[2], h[3]) == Some(b)
    requires HexToU8(h[4], h[5]) == Some(c) && HexToU8(h[6], h[7]) == Some(d)
    ensures AssembleFrom(h, step, 0, 0)
         == Some(Or32(Or32(Or32(Or32(0, Shl(a, 0)), Shl(b, step)), Shl(c, 2 * step)), Shl(d, 3 * step)))
  {
    hide HexToU8, Or32, Shl;
    assert AssembleFrom(h, step, 4,
                        Or32(Or32(Or32(Or32(0, Shl(a, 0)), Shl(b, step)), Shl(c, 2 * step)), Shl(d, 3 * step)))
        == Some(Or32(Or32(Or32(Or32(0, Shl(a, 0)), Shl(b, step)), Shl(c, 2 * step)), Shl(d, 3 * step)));
    assert AssembleFrom(h, step, 3, Or32(Or32(Or32(0, Shl(a, 0)), Shl(b, step)), Shl(c, 2 * step)))
        == AssembleFrom(h, step, 4,
                        Or32(Or32(Or32(Or32(0, Shl(a, 0)), Shl(b, step)), Shl(c, 2 * step)), Shl(d, 3 * step)));
    assert AssembleFrom(h, step, 2, Or32(Or32(0, Shl(a, 0)), Shl(b, step)))
        == AssembleFrom(h, step, 3, Or32(Or32(Or32(0, Shl(a, 0)), Shl(b, step)), Shl(c, 2 * step)));
    assert AssembleFrom(h, step, 0, 0) == AssembleFrom(h, step, 1, Or32(0, Shl(a, 0)));
  }

  lemma AssembleDigits(w: u32, step: nat)
    ensures var a, b, c, d := w % 0x100, w / 0x100 % 0x100, w / 0x1_0000 % 0x100, w / 0x100_0000;
      AssembleFrom(WordDigits(w), step, 0, 0)
        == Some(Or32(Or32(Or32(Or32(0, Shl(a, 0)), Shl(b, step)), Shl(c, 2 * step)), Shl(d, 3 * step)))
  {
    hide Digits, HexToU8, Or32, Shl, AssembleFrom;
    var a, b, c, d := w % 0x100, w / 0x100 % 0x100, w / 0x1_0000 % 0x100, w / 0x100_0000;
    DigitsRoundTrip(a);
    DigitsRoundTrip(b);
    DigitsRoundTrip(c);
    DigitsRoundTrip(d);
    AssembleBytes(WordDigits(w), step, a, b, c, d);
  }

  /** Reading back the digits of w gives w when each byte is shifted by eight; with the shift of four
      that is written, exactly for w below 256. */
  lemma WordRoundTrip(w: u32)
    ensures AssembleFrom(WordDigits(w), 8, 0, 0) == Some(w)
    ensures HexToU32(WordDigits(w)).Some?
    ensures HexToU32(WordDigits(w)) == Some(w) <==> w < 0x100
  {
    hide WordDigits, AssembleFrom, Or32, Shl;
    var a, b, c, d := w % 0x100, w / 0x100 % 0x100, w / 0x1_0000 % 0x100, w / 0x100_0000;
    AssembleDigits(w, 8);
    AssembleDigits(w, 4);
    JoinAtEight(a, b, c, d);
    JoinAtFour(a, b, c, d);
    BytesOfWord(w);
  }

  lemma BytesOfWord(w: u32)
    ensures w == w % 0x100 + 0x100 * (w / 0x100 % 0x100) + 0x1_0000 * (w / 0x1_0000 % 0x100)
               + 0x100_0000 * (w / 0x100_0000)
  {
    DivideTwice(w, 0x100, 0x100);
    DivideTwice(w, 0x1_0000, 0x100);
  }

  lemma JoinAtEight(a: u8, b: u8, c: u8, d: u8)
    ensures Or32(Or32(Or32(Or32(0, Shl(a, 0)), Shl(b, 8)), Shl(c, 16)), Shl(d, 24))
         == a as int + 0x100 * b as int + 0x1_0000 * c as int + 0x100_0000 * d as int
  {
    hide Or, Pow2;
    Pow2Values();
    Join(0, a, 0, 1, a);
    Join(a, b * 0x100, 8, 0x100, b);
    var ab := a as int + 0x100 * b as int;
    Join(ab, c * 0x1_0000, 16, 0x1_0000, c);
    var abc := ab + 0x1_0000 * c as int;
    Join(abc, d * 0x100_0000, 24, 0x100_0000, d);
  }

  /** `|` is at most `+`, so the overlapping bytes lose value as soon as one of the upper three is not 0. */
  lemma JoinAtFour(a: u8, b: u8, c: u8, d: u8)
    ensures var v := Or32(Or32(Or32(Or32(0, Shl(a, 0)), Shl(b, 4)), Shl(c, 8)), Shl(d, 12));
      a <= v <= a as int + 0x10 * b as int + 0x100 * c as int + 0x1000 * d as int
  {
    hide Or, Pow2;
    Pow2Values();
  }

  // ----- what rsp_hex_to_u32 computes as written -----

  predicate EightDigits(h: seq<u8>) {
    |h| == 8 && forall i :: 0 <= i < 8 ==> IsHexDigit(h[i])
  }

  /** The byte that the k-th pair of digits stands for. */
  function ByteAt(h: seq<u8>, k: nat): u8
    requires EightDigits(h) && k < 4
  {
    0x10 * FromHexDigit(h[2 * k]).value + FromHexDigit(h[2 * k + 1]).value
  }

  /** Four bytes, each four bits above the one before, have a one in position i. */
  predicate OverlapBit(h: seq<u8>, i: nat)
    requires EightDigits(h)
  {
    || (i < 8 && Bit(ByteAt(h, 0), i)) || (4 <= i < 12 && Bit(ByteAt(h, 1), i - 4))
    || (8 <= i < 16 && Bit(ByteAt(h, 2), i - 8)) || (12 <= i < 20 && Bit(ByteAt(h, 3), i - 12))
  }

  lemma {:induction false} AssembleFails(h: seq<u8>, step: nat, i: nat, ret: u32)
    requires |h| == 8 && i <= 4
    ensures AssembleFrom(h, step, i, ret).Some? <==> forall j :: 2 * i <= j < 8 ==> IsHexDigit(h[j])
    decreases 4 - i
  {
    hide IsHexDigit, FromHexDigit, Or32, Shl;
    if i < 4 && HexToU8(h[2 * i], h[2 * i + 1]).Some? {
      AssembleFails(h, step, i + 1, Or32(ret, Shl(HexToU8(h[2 * i], h[2 * i + 1]).value, i * step)));
      assert (forall j :: 2 * i <= j < 8 ==> IsHexDigit(h[j]))
        <==> IsHexDigit(h[2 * i]) && IsHexDigit(h[2 * i + 1]) && forall j :: 2 * (i + 1) <= j < 8 ==> IsHexDigit(h[j]);
    }
  }

  /** A byte shifted by at most twelve bits. */
  lemma ShiftedByteBit(b: u8, k: nat, i: nat)
    requires k <= 12
    ensures Bit(Shl(b, k), i) <==> k <= i < k + 8 && Bit(b, i - k)
  {
    hide Pow2, Bit;
    Pow2Values();
    assert b * Pow2(k) < TWO_32 by { SmallProduct(b, k); }
    BitOfScale(b, k, i);
    if i >= k + 8 {
      Pow2Add(8, i - k - 8);
      NonzeroMultiple(Pow2(i - k - 8), Pow2(8));
      BitBeyond(b, 8, i - k);
    }
  }

  lemma SmallProduct(b: u8, k: nat)
    requires k <= 12
    ensures 0 <= b * Pow2(k) < TWO_32
  {
    hide Pow2;
    Pow2Values();
  }

  lemma OverlapOf(a: u8, b: u8, c: u8, d: u8, i: nat)
    ensures var v := Or32(Or32(Or32(Or32(0, Shl(a, 0)), Shl(b, 4)), Shl(c, 8)), Shl(d, 12));
      Bit(v, i)
      <==> (i < 8 && Bit(a, i)) || (4 <= i < 12 && Bit(b, i - 4)) || (8 <= i < 16 && Bit(c, i - 8))
           || (12 <= i < 20 && Bit(d, i - 12))
  {
    hide Or, Shl, Bit;
    var x := Or32(0, Shl(a, 0));
    var y := Or32(x, Shl(b, 4));
    var z := Or32(y, Shl(c, 8));
    BitOfZero(i);
    BitOfOr(0, Shl(a, 0), i);
    BitOfOr(x, Shl(b, 4), i);
    BitOfOr(y, Shl(c, 8), i);
    BitOfOr(z, Shl(d, 12), i);
    ShiftedByteBit(a, 0, i);
    ShiftedByteBit(b, 4, i);
    ShiftedByteBit(c, 8, i);
    ShiftedByteBit(d, 12, i);
  }

  /** As written, rsp_hex_to_u32 fails exactly if one of the eight characters is no digit, and otherwise lays
      the four bytes over one another, each four bits above the one before. */
  lemma HexToU32Overlaps(h: seq<u8>)
    requires |h| == 8
    ensures HexToU32(h).Some? <==> EightDigits(h)
    ensures EightDigits(h) ==> forall i: nat :: Bit(HexToU32(h).value, i) <==> OverlapBit(h, i)
  {
    hide IsHexDigit, FromHexDigit, Or32, Shl, Bit, AssembleFrom, HexToU8;
    AssembleFails(h, 4, 0, 0);
    if EightDigits(h) {
      HexToU8Value(h[0], h[1]);
      HexToU8Value(h[2], h[3]);
      HexToU8Value(h[4], h[5]);
      HexToU8Value(h[6], h[7]);
      var a, b, c, d := ByteAt(h, 0), ByteAt(h, 1), ByteAt(h, 2), ByteAt(h, 3);
      AssembleBytes(h, 4, a, b, c, d);
      forall i: nat ensures Bit(HexToU32(h).value, i) <==> OverlapBit(h, i) {
        OverlapOf(a, b, c, d, i);
      }
    }
  }

  /** The digits are lower-case. */
  lemma DigitsAreLower(b: u8)
    ensures Digits(b) == [LOWER[b / 0x10] as int, LOWER[b % 0x10] as int]
  {
  }
}
