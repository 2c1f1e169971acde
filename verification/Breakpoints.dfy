/** The eight breakpoint slots as a multiset of addresses. */
module Breakpoints {
  import opened Words
  import opened Control
  import opened Interrupts

  /** The addresses held by the used slots from i on. */
  function Held(mask: u8, bp: seq<u32>, i: nat): multiset<u32>
    requires |bp| == 8
    decreases 8 - i
  {
    if i >= 8 then multiset{}
    else Slot(mask, bp, i) + Held(mask, bp, i + 1)
  }

  function Listed(c: Ctl): multiset<u32>
    requires |c.bp| == 8
  {
    Held(c.bpMask, c.bp, 0)
  }

  /** Unused slots hold 0. */
  predicate Tidy(c: Ctl) {
    |c.bp| == 8 && forall i: nat :: i < 8 && i !in Bits(c.bpMask) ==> c.bp[i] == 0
  }

  lemma SlotUsedIsBit(mask: u8, i: nat)
    requires i < 8
    ensures SlotUsed(mask, i) <==> i in Bits(mask)
  {
    TestBit(mask, i);
  }

  lemma MarkSlotBits(mask: u8, i: nat)
    requires i < 8
    ensures Bits(MarkSlot(mask, i)) == Bits(mask) + {i}
  {
    hide Or;
    BitsOfShlOne(i);
    BitsOfOr(mask, Shl(1, i));
  }

  lemma {:induction false} HeldSize(mask: u8, bp: seq<u32>, i: nat)
    requires |bp| == 8 && i <= 8
    ensures |Held(mask, bp, i)| <= 8 - i
    ensures |Held(mask, bp, i)| == 8 - i <==> forall j :: i <= j < 8 ==> j in Bits(mask)
    decreases 8 - i
  {
    hide Bits;
    if i < 8 {
      HeldSize(mask, bp, i + 1);
      assert (forall j :: i <= j < 8 ==> j in Bits(mask))
        <==> i in Bits(mask) && forall j :: i + 1 <= j < 8 ==> j in Bits(mask);
    }
  }

  /** Slots that agree from i on hold the same addresses. */
  lemma {:induction false} HeldSame(m1: u8, b1: seq<u32>, m2: u8, b2: seq<u32>, i: nat)
    requires |b1| == 8 && |b2| == 8
    requires forall j :: i <= j < 8 ==> (j in Bits(m1) <==> j in Bits(m2)) && b1[j] == b2[j]
    ensures Held(m1, b1, i) == Held(m2, b2, i)
    decreases 8 - i
  {
    hide Bits;
    if i < 8 { HeldSame(m1, b1, m2, b2, i + 1); }
  }

  /** Filling the unused slot k adds its address, wherever the scan starts before it. */
  lemma {:induction false} HeldFilled(m1: u8, b1: seq<u32>, m2: u8, b2: seq<u32>, k: nat, i: nat)
    requires |b1| == 8 && |b2| == 8 && i <= k < 8
    requires k !in Bits(m1) && k in Bits(m2)
    requires forall j :: 0 <= j < 8 && j != k ==> (j in Bits(m1) <==> j in Bits(m2)) && b1[j] == b2[j]
    ensures Held(m2, b2, i) == Held(m1, b1, i) + multiset{b2[k]}
    decreases 8 - i
  {
    hide Bits, Held;
    if i == k {
      HeldStep(m1, b1, i);
      HeldStep(m2, b2, i);
      HeldSame(m1, b1, m2, b2, i + 1);
    } else {
      HeldFilled(m1, b1, m2, b2, k, i + 1);
      HeldStep(m1, b1, i);
      HeldStep(m2, b2, i);
      RegroupSum(Slot(m1, b1, i), Held(m1, b1, i + 1), multiset{b2[k]});
    }
  }

  function Slot(mask: u8, bp: seq<u32>, i: nat): multiset<u32>
    requires i < |bp|
  {
    if i in Bits(mask) then multiset{bp[i]} else multiset{}
  }

  lemma HeldStep(mask: u8, bp: seq<u32>, i: nat)
    requires |bp| == 8 && i < 8
    ensures Held(mask, bp, i) == Slot(mask, bp, i) + Held(mask, bp, i + 1)
  {
  }

  lemma NoneHeld(mask: u8, bp: seq<u32>, i: nat)
    requires |bp| == 8 && i >= 8
    ensures Held(mask, bp, i) == multiset{}
  {
  }

  lemma RegroupSum(a: multiset<u32>, b: multiset<u32>, c: multiset<u32>)
    ensures a + (b + c) == (a + b) + c
  {
  }

  lemma {:induction false} FreeSlotIsFree(mask: u8, i: nat)
    requires i <= 8
    ensures var r := FreeSlot(mask, i);
      && (r.Some? ==> r.value !in Bits(mask) && forall j :: i <= j < r.value ==> j in Bits(mask))
      && (r.None? <==> forall j :: i <= j < 8 ==> j in Bits(mask))
    decreases 8 - i
  {
    hide Bits, SlotUsed;
    if i < 8 {
      SlotUsedIsBit(mask, i);
      if i in Bits(mask) {
        FreeSlotIsFree(mask, i + 1);
        assert (forall j :: i <= j < 8 ==> j in Bits(mask))
          <==> i in Bits(mask) && forall j :: i + 1 <= j < 8 ==> j in Bits(mask);
      }
    }
  }

  lemma {:induction false} SlotHoldingHolds(mask: u8, bp: seq<u32>, addr: u32, i: nat)
    requires |bp| == 8 && i <= 8
    ensures var r := SlotHolding(mask, bp, addr, i);
      && (r.Some? ==>
            && r.value in Bits(mask) && bp[r.value] == addr
            && forall j :: i <= j < r.value ==> j !in Bits(mask) || bp[j] != addr)
      && (r.Some? <==> addr in Held(mask, bp, i))
    decreases 8 - i
  {
    hide Bits, SlotUsed, Held;
    if i < 8 {
      SlotUsedIsBit(mask, i);
      SlotHoldingHolds(mask, bp, addr, i + 1);
      HeldStep(mask, bp, i);
    } else {
      NoneHeld(mask, bp, i);
    }
  }

  lemma {:induction false} HitFromIsHeld(c: Ctl, i: nat)
    requires |c.bp| == 8 && i <= 8
    ensures HitFrom(c, i) <==> c.pc in Held(c.bpMask, c.bp, i)
    decreases 8 - i
  {
    hide Bits, SlotUsed;
    if i < 8 {
      SlotUsedIsBit(c.bpMask, i);
      HitFromIsHeld(c, i + 1);
    }
  }

  /** The scan in rv32_cycle finds a breakpoint iff pc is listed. */
  lemma HitIsListed(c: Ctl)
    requires |c.bp| == 8
    ensures BreakpointHit(c) <==> c.pc in Listed(c)
  {
    HitFromIsHeld(c, 0);
    if c.bpMask == 0 {
      BitsOfZero();
      NothingHeld(c.bp, 0);
    }
  }

  lemma {:induction false} NothingHeld(bp: seq<u32>, i: nat)
    requires |bp| == 8
    ensures Held(0, bp, i) == multiset{}
    decreases 8 - i
  {
    BitsOfZero();
    if i < 8 { NothingHeld(bp, i + 1); }
  }

  /** Setting adds one copy of the address, and fails, changing nothing, iff all eight slots are used. */
  lemma SetAddsOne(c: Ctl, addr: u32)
    requires |c.bp| == 8
    ensures var (d, ok) := SetBreakpoint(c, addr);
      && (ok <==> |Listed(c)| < 8)
      && (ok ==> Listed(d) == Listed(c) + multiset{addr})
      && (!ok ==> d == c)
      && d == c.(bpMask := d.bpMask, bp := d.bp)
      && (Tidy(c) ==> Tidy(d))
  {
    hide Bits, FreeSlot, Held, MarkSlot;
    FreeSlotIsFree(c.bpMask, 0);
    HeldSize(c.bpMask, c.bp, 0);
    var r := FreeSlot(c.bpMask, 0);
    if r.Some? {
      MarkSlotBits(c.bpMask, r.value);
      HeldFilled(c.bpMask, c.bp, MarkSlot(c.bpMask, r.value), c.bp[r.value := addr], r.value, 0);
    }
  }

  /** Clearing removes one copy of the address, and fails, changing nothing, iff it is not listed. */
  lemma ClearRemovesOne(c: Ctl, addr: u32)
    requires |c.bp| == 8
    ensures var (d, ok) := ClearBreakpoint(c, addr);
      && (ok <==> addr in Listed(c))
      && (ok ==> Listed(d) == Listed(c) - multiset{addr})
      && (!ok ==> d == c)
      && d == c.(bpMask := d.bpMask, bp := d.bp)
      && (Tidy(c) ==> Tidy(d))
  {
    hide Bits, SlotHolding, Held, ClearBit;
    SlotHoldingHolds(c.bpMask, c.bp, addr, 0);
    var r := SlotHolding(c.bpMask, c.bp, addr, 0);
    if r.Some? {
      ClearBitBits(c.bpMask, r.value);
      assert Bits(c.bpMask) == Bits(ClearBit(c.bpMask, r.value)) + {r.value};
      HeldFilled(ClearBit(c.bpMask, r.value), c.bp[r.value := 0], c.bpMask, c.bp, r.value, 0);
    }
  }

  /** Clearing all empties the list. */
  lemma ClearAllEmpties(c: Ctl)
    ensures var d := ClearAllBreakpoints(c); Listed(d) == multiset{} && Tidy(d)
  {
    NothingHeld(ClearAllBreakpoints(c).bp, 0);
  }
}
