/**
 Laws of the interrupt controller and of trap entry, with CSR words read as sets
 of bits (RISC-V privileged ISA 20211203, sections 3.1.6.1, 3.1.7, 3.1.9).
 */
module Interrupts {
  import opened Words
  import opened Control

  /** The word as the set of its one bits. */
  function Bits(x: u32): set<nat> {
    set i: nat | i < 32 && Bit(x, i)
  }

  // ----- what the CSR macros do to the bits -----

  lemma {:induction false} Pow2Below(i: nat, n: nat)
    requires i < n
    ensures Pow2(i) < Pow2(n)
  {
    if i + 1 < n { Pow2Below(i, n - 1); }
  }

  lemma ShlOneIsPow2(i: nat)
    requires i < 32
    ensures Shl(1, i) == Pow2(i) < TWO_32
  {
    Pow2Values();
    Pow2Below(i, 32);
  }

  lemma BitsExtensional(x: u32, y: u32)
    requires Bits(x) == Bits(y)
    ensures x == y
  {
    Pow2Values();
    forall i: nat | i < 32 ensures Bit(x, i) == Bit(y, i) {
      assert i in Bits(x) <==> i in Bits(y);
    }
    BitsDetermine(x, y, 32);
  }

  lemma BitsOfZero()
    ensures Bits(0) == {}
  {
    forall i: nat ensures !Bit(0, i) { BitOfZero(i); }
  }

  lemma BitsEmpty(x: u32)
    ensures x == 0 <==> Bits(x) == {}
  {
    BitsOfZero();
    if Bits(x) == {} { BitsExtensional(x, 0); }
  }

  lemma BitsOfAnd(x: u32, y: u32)
    ensures Bits(And(x, y)) == Bits(x) * Bits(y)
  {
    forall i: nat ensures Bit(And(x, y), i) == (Bit(x, i) && Bit(y, i)) { BitOfAnd(x, y, i); }
  }

  lemma BitsOfOr(x: u32, y: u32)
    ensures Bits(Or32(x, y)) == Bits(x) + Bits(y)
  {
    forall i: nat ensures Bit(Or(x, y), i) == (Bit(x, i) || Bit(y, i)) { BitOfOr(x, y, i); }
  }

  lemma BitsOfShlOne(k: nat)
    requires k < 32
    ensures Bits(Shl(1, k)) == {k}
  {
    ShlOneIsPow2(k);
    forall i: nat ensures Bit(Pow2(k), i) == (i == k) { BitOfPow2(k, i); }
  }

  lemma BitsOfNot(x: u32)
    ensures forall i: nat :: i in Bits(Not32(x)) <==> i < 32 && i !in Bits(x)
  {
    Pow2Values();
    forall i: nat | i < 32 ensures Bit(Not32(x), i) == !Bit(x, i) { BitOfComplement(x, 32, i); }
  }

  lemma ClearBitBits(x: u32, k: nat)
    requires k < 32
    ensures Bits(ClearBit(x, k)) == Bits(x) - {k}
  {
    BitsOfShlOne(k);
    BitsOfNot(Shl(1, k));
    BitsOfAnd(x, Not32(Shl(1, k)));
  }

  lemma SetBitBits(x: u32, k: nat, val: u32)
    requires k < 32
    ensures Bits(SetBit(x, k, val)) == if val != 0 then Bits(x) + {k} else Bits(x) - {k}
  {
    ClearBitBits(x, k);
    BitsOfShlOne(k);
    BitsOfZero();
    assert Shl(0, k) == 0;
    BitsOfOr(ClearBit(x, k), Shl(if val != 0 then 1 else 0, k));
  }

  lemma GetBitBits(x: u32, k: nat)
    requires k < 32
    ensures GetBit(x, k) == BitValue(k in Bits(x))
  {
    AndLowMask(Shr(x, k), 1);
    BitOfShr(x, k, 0);
  }

  lemma TestBit(x: u32, k: nat)
    requires k < 32
    ensures And(x, Shl(1, k)) != 0 <==> k in Bits(x)
  {
    ShlOneIsPow2(k);
    AndPow2(x, k);
  }

  // ----- claiming -----

  lemma {:induction false} LowestSetIsLeast(x: u32, i: nat)
    ensures LowestSet(x, i).None? ==> forall j :: j in Bits(x) ==> j < i
    ensures LowestSet(x, i).Some? ==>
              LowestSet(x, i).value in Bits(x) && forall j :: i <= j < LowestSet(x, i).value ==> j !in Bits(x)
    decreases 32 - i
  {
    if i < 32 {
      TestBit(x, i);
      if i !in Bits(x) { LowestSetIsLeast(x, i + 1); }
    }
  }

  /** One claim: it succeeds iff some pending line is enabled, and then takes the lowest pending line,
      enabled or not. */
  lemma ClaimTakesLowest(c: Ctl)
    ensures var (d, r) := ClaimIrq(c);
      && (r.Some? <==> Bits(c.ie) * Bits(c.ip) != {})
      && (r.None? ==> d == c)
      && (r.Some? ==>
            && r.value in Bits(c.ip)
            && (forall j :: j in Bits(c.ip) ==> r.value <= j)
            && Bits(d.ip) == Bits(c.ip) - {r.value as nat}
            && Bits(d.mip) == (if Bits(d.ip) == {} then Bits(c.mip) - {11} else Bits(c.mip))
            && d == c.(ip := d.ip, mip := d.mip))
  {
    hide And, LowestSet;
    BitsOfAnd(c.ie, c.ip);
    BitsEmpty(And(c.ie, c.ip));
    LowestSetIsLeast(c.ip, 0);
    var r := LowestSet(c.ip, 0);
    if r.Some? {
      ClearBitBits(c.ip, r.value);
      BitsEmpty(ClearBit(c.ip, r.value));
      ClearBitBits(c.mip, MEI);
    }
  }

  /** Claims until one fails: the lines taken, in order. */
  function Drain(c: Ctl): (Ctl, seq<u32>)
    decreases |Bits(c.ip)|
  {
    ClaimTakesLowest(c);
    match ClaimIrq(c)
    case (d, None) => (d, [])
    case (d, Some(i)) =>
      assert Bits(d.ip) < Bits(c.ip);
      SubsetSize(Bits(d.ip), Bits(c.ip));
      var (e, rest) := Drain(d);
      (e, [i] + rest)
  }

  lemma SubsetSize(a: set<nat>, b: set<nat>)
    requires a < b
    ensures |a| < |b|
  {
    assert |b| == |a| + |b - a|;
  }

  /** Some enabled pending line lies at or above i. */
  predicate Reached(c: Ctl, i: nat) {
    exists h :: h in Bits(c.ie) * Bits(c.ip) && i <= h
  }

  lemma {:induction false} DrainMembers(c: Ctl)
    ensures var (d, s) := Drain(c);
      && (forall i: nat :: i in s <==> i in Bits(c.ip) && Reached(c, i))
      && (forall i: nat :: i in Bits(d.ip) <==> i in Bits(c.ip) && !Reached(c, i))
      && d.ie == c.ie
    decreases |Bits(c.ip)|
  {
    hide ClaimIrq, Bits, Reached;
    ClaimTakesLowest(c);
    var (c1, r) := ClaimIrq(c);
    var (d, s) := Drain(c);
    if r.None? {
      NothingReached(c);
    } else {
      SubsetSize(Bits(c1.ip), Bits(c.ip));
      DrainMembers(c1);
      forall i: nat ensures i in s <==> i == r.value || i in Drain(c1).1 {}
      forall i: nat { ReachedAfterClaim(c, c1, r.value, i); }
    }
  }

  lemma {:induction false} DrainAscends(c: Ctl)
    ensures var s := Drain(c).1; forall i, j :: 0 <= i < j < |s| ==> s[i] < s[j]
    decreases |Bits(c.ip)|
  {
    hide ClaimIrq, Bits, Reached;
    ClaimTakesLowest(c);
    var (c1, r) := ClaimIrq(c);
    var s := Drain(c).1;
    if r.Some? {
      SubsetSize(Bits(c1.ip), Bits(c.ip));
      DrainAscends(c1);
      DrainMembers(c1);
      var rest := Drain(c1).1;
      forall i, j | 0 <= i < j < |s| ensures s[i] < s[j] {
        assert s[j] == rest[j - 1] && s[j] as nat in rest;
        if i != 0 { assert s[i] == rest[i - 1]; }
      }
    }
  }

  /** Draining yields, in strictly ascending order and once each, exactly the pending lines up to the
      highest enabled pending one, and leaves exactly the others pending: none of them enabled. */
  lemma DrainIsExact(c: Ctl)
    ensures var (d, s) := Drain(c);
      && (forall i, j :: 0 <= i < j < |s| ==> s[i] < s[j])
      && (forall i: nat :: i in s <==> i in Bits(c.ip) && Reached(c, i))
      && Bits(d.ip) == (set i: nat | i in Bits(c.ip) && !Reached(c, i))
      && Bits(d.ie) * Bits(d.ip) == {}
  {
    hide Drain, Bits;
    DrainMembers(c);
    DrainAscends(c);
    forall i: nat | i in Bits(c.ie) * Bits(c.ip) ensures Reached(c, i) {}
  }

  lemma NothingReached(c: Ctl)
    requires Bits(c.ie) * Bits(c.ip) == {}
    ensures forall i :: !Reached(c, i)
  {
  }

  lemma ReachedAfterClaim(c: Ctl, c1: Ctl, v: nat, i: nat)
    requires Bits(c.ie) * Bits(c.ip) != {}
    requires v in Bits(c.ip) && forall j :: j in Bits(c.ip) ==> v <= j
    requires Bits(c1.ip) == Bits(c.ip) - {v} && c1.ie == c.ie
    ensures i == v ==> Reached(c, i)
    ensures i in Bits(c1.ip) ==> (Reached(c1, i) <==> Reached(c, i))
  {
    var h :| h in Bits(c.ie) * Bits(c.ip);
    assert v <= h;
    if i in Bits(c1.ip) {
      assert v < i;
      if Reached(c, i) {
        var g :| g in Bits(c.ie) * Bits(c.ip) && i <= g;
        assert g in Bits(c1.ie) * Bits(c1.ip);
      }
      if Reached(c1, i) {
        var g :| g in Bits(c1.ie) * Bits(c1.ip) && i <= g;
        assert g in Bits(c.ie) * Bits(c.ip);
      }
    }
  }

  // ----- raising -----

  /** Raising a line makes it pending, with MEIP, and touches no other line; lines from 4 up cannot be raised. */
  lemma TriggerRaises(c: Ctl, line: u32)
    ensures var d := Trigger(c, line);
      && Bits(d.ip) == (if line < 4 then Bits(c.ip) + {line as nat} else Bits(c.ip))
      && Bits(d.mip) == (if line < 4 then Bits(c.mip) + {11} else Bits(c.mip))
      && d == c.(ip := d.ip, mip := d.mip)
  {
    hide Bits, SetBit, Shl, Or32;
    if line < 4 {
      SetBitBits(c.mip, MEI, 1);
      BitsOfShlOne(line);
      BitsOfOr(c.ip, Shl(1, line));
    }
  }

  // ----- trap entry and return -----

  /** Exactly one interrupt kind is both enabled and pending, namely k. */
  predicate OnlyKind(c: Ctl, k: nat) {
    Bits(c.mie) * Bits(c.mip) == {k}
  }

  predicate TrapDue(c: Ctl) {
    && MIE in Bits(c.mstatus)
    && (OnlyKind(c, MSI) || OnlyKind(c, MTI) || (OnlyKind(c, MEI) && Bits(c.ie) * Bits(c.ip) != {}))
  }

  /** The cause code of the trap that is due. */
  function CauseCode(c: Ctl): nat
    requires TrapDue(c)
  {
    if OnlyKind(c, MSI) then 3
    else if OnlyKind(c, MTI) then 7
    else
      ClaimTakesLowest(c);
      16 + ClaimIrq(c).1.value
  }

  /** Section 3.1.7: vectored mode adds four times the cause to the base. */
  function Vector(mtvec: u32, code: nat): u32 {
    if mtvec % 2 == 1 then Wrap(mtvec - mtvec % 4 + 4 * code) else mtvec
  }

  lemma ExternalCause(irq: u32)
    requires irq < 32
    ensures Or32(0x8000_0000, Wrap(16 + irq)) == 0x8000_0000 + 16 + irq
  {
    hide Or, Pow2;
    Pow2Values();
    OrCommutes(0x8000_0000, 16 + irq);
    DivideUnique(0x8000_0000, 0x8000_0000, 1, 0);
    OrDisjoint(16 + irq, 0x8000_0000, 31);
  }

  lemma TrapTargetIsVector(mtvec: u32, code: nat)
    requires code < 64
    ensures TrapTarget(mtvec, 0x8000_0000 + code) == Vector(mtvec, code)
  {
    hide And, Pow2;
    Pow2Values();
    AndLowMask(mtvec, 1);
    AndFieldMask(mtvec, 2, 30);
    assert Field(mtvec, 2, 30) == mtvec / 4;
    AndLowMask(0x8000_0000 + code, 31);
  }

  lemma PendingIsOneBit(c: Ctl, k: nat)
    requires k < 32
    ensures And(c.mie, c.mip) == Shl(1, k) <==> OnlyKind(c, k)
  {
    hide And;
    BitsOfAnd(c.mie, c.mip);
    BitsOfShlOne(k);
    if OnlyKind(c, k) { BitsExtensional(And(c.mie, c.mip), Shl(1, k)); }
  }

  lemma EnterTrapBits(c: Ctl, code: nat)
    requires code < 64 && MIE in Bits(c.mstatus)
    ensures var d := EnterTrap(c, 0x8000_0000 + code);
      && Bits(d.mstatus) == Bits(c.mstatus) + {MPIE} - {MIE}
      && d == c.(mcause := 0x8000_0000 + code, mepc := c.pc, mstatus := d.mstatus,
                 pc := Vector(c.mtvec, code), wfi := false)
  {
    hide GetBit, SetBit, TrapTarget;
    GetBitBits(c.mstatus, MIE);
    SetBitBits(c.mstatus, MPIE, GetBit(c.mstatus, MIE));
    SetBitBits(SetBit(c.mstatus, MPIE, GetBit(c.mstatus, MIE)), MIE, 0);
    TrapTargetIsVector(c.mtvec, code);
  }

  /** When no trap is due the prelude changes nothing. */
  lemma NoTrap(c: Ctl)
    requires !TrapDue(c)
    ensures Prelude(c) == c
  {
    hide GetBit, And, EnterTrap;
    GetBitBits(c.mstatus, MIE);
    PendingIsOneBit(c, MSI);
    PendingIsOneBit(c, MTI);
    PendingIsOneBit(c, MEI);
    ClaimTakesLowest(c);
  }

  /** When a trap is due the prelude takes it: pc is saved, MIE moves to MPIE, the cause and the
      vector are set, wfi is left; an external interrupt claims the lowest pending line. */
  lemma TrapTaken(c: Ctl)
    requires TrapDue(c)
    ensures var d := Prelude(c);
      && Bits(d.mstatus) == Bits(c.mstatus) + {7} - {3}
      && d.mcause == 0x8000_0000 + CauseCode(c)
      && d == c.(mcause := d.mcause, mepc := c.pc, mstatus := d.mstatus, wfi := false,
                 pc := Vector(c.mtvec, CauseCode(c)), ip := d.ip, mip := d.mip)
      && (if OnlyKind(c, MEI) then d.ip == ClaimIrq(c).0.ip && d.mip == ClaimIrq(c).0.mip
          else d.ip == c.ip && d.mip == c.mip)
  {
    hide GetBit, And, Shl, EnterTrap, ClaimIrq, Vector;
    GetBitBits(c.mstatus, MIE);
    PendingIsOneBit(c, MSI);
    PendingIsOneBit(c, MTI);
    PendingIsOneBit(c, MEI);
    ShlValues();
    ClaimTakesLowest(c);
    if OnlyKind(c, MEI) {
      var (d, irq) := ClaimIrq(c);
      ExternalCause(irq.value);
      EnterTrapBits(d, 16 + irq.value);
    } else {
      EnterTrapBits(c, CauseCode(c));
    }
  }

  lemma ShlValues()
    ensures Shl(1, MSI) == 8 && Shl(1, MTI) == 0x80 && Shl(1, MEI) == 0x800
  {
    Pow2Values();
  }

  /** A cycle's prelude takes a trap iff one is due; the sign of it is that MIE is cleared. */
  lemma TrapIff(c: Ctl)
    ensures TrapDue(c) <==> Prelude(c) != c
    ensures TrapDue(c) <==> 3 in Bits(c.mstatus) && 3 !in Bits(Prelude(c).mstatus)
    ensures var due := Bits(c.mie) * Bits(c.mip);
      var one := due == {3} || due == {7} || (due == {11} && Bits(c.ie) * Bits(c.ip) != {});
      TrapDue(c) <==> 3 in Bits(c.mstatus) && one
  {
    hide Prelude;
    if TrapDue(c) { TrapTaken(c); } else { NoTrap(c); }
  }

  // ----- the manual's rule -----

  /** Section 3.1.9: of the machine-level kinds that are enabled and pending, external comes before software
      and software before timer. */
  function ManualKind(c: Ctl): Option<nat> {
    var due := Bits(c.mie) * Bits(c.mip);
    if 3 !in Bits(c.mstatus) then None
    else if 11 in due then Some(11)
    else if 3 in due then Some(3)
    else if 7 in due then Some(7)
    else None
  }

  /** Sections 3.1.6.1, 3.1.7 and 3.1.15: the trap that this kind takes, with the kind as its code. */
  predicate ManualTrap(c: Ctl, d: Ctl) {
    match ManualKind(c)
    case None => d == c
    case Some(k) =>
      && Bits(d.mstatus) == Bits(c.mstatus) + {7} - {3} && d.mcause == 0x8000_0000 + k
      && d == c.(mcause := d.mcause, mepc := c.pc, mstatus := d.mstatus, wfi := false, pc := Vector(c.mtvec, k))
  }

  lemma SoleKind(c: Ctl, k: nat)
    requires OnlyKind(c, k) && k in {MSI, MTI, MEI} && MIE in Bits(c.mstatus)
    ensures ManualKind(c) == Some(k)
  {
    hide Bits;
    assert k in Bits(c.mie) * Bits(c.mip);
    assert forall j :: j in Bits(c.mie) * Bits(c.mip) ==> j == k;
  }

  /** The core takes a trap exactly when the manual's kind is the only one, and, if that is the external kind,
      the controller has an enabled line pending. */
  lemma TakenIffSole(c: Ctl)
    ensures var k := ManualKind(c);
      TrapDue(c) <==> k.Some? && OnlyKind(c, k.value) && (k.value == MEI ==> Bits(c.ie) * Bits(c.ip) != {})
  {
    hide Bits;
    assert MSI != MEI && MTI != MEI && MSI != MTI;
    if MIE in Bits(c.mstatus) {
      if OnlyKind(c, MSI) { SoleKind(c, MSI); }
      if OnlyKind(c, MTI) { SoleKind(c, MTI); }
      if OnlyKind(c, MEI) { SoleKind(c, MEI); }
    }
  }

  /** An external interrupt never has the manual's code, which is 11. */
  lemma ExternalCode(c: Ctl)
    requires TrapDue(c) && OnlyKind(c, MEI)
    ensures Prelude(c).mcause >= 0x8000_0010
  {
    hide Prelude, ClaimIrq, Bits;
    assert MEI != MSI && MEI != MTI && MEI in {MEI};
    TrapTaken(c);
    ClaimTakesLowest(c);
  }

  /** Trap entry is the manual's exactly when the manual takes none, or a software or timer interrupt is the
      only one enabled and pending. */
  lemma PreludeMeetsManual(c: Ctl)
    ensures ManualTrap(c, Prelude(c)) <==> ManualKind(c).None? || OnlyKind(c, MSI) || OnlyKind(c, MTI)
  {
    hide Prelude, Bits, Vector, TrapDue;
    TakenIffSole(c);
    if TrapDue(c) {
      TrapTaken(c);
      SoleCause(c);
      if OnlyKind(c, MEI) { ExternalCode(c); }
    } else {
      NoTrap(c);
      if ManualKind(c).Some? { ManualEnters(c); }
    }
  }

  lemma SoleCause(c: Ctl)
    requires TrapDue(c)
    ensures OnlyKind(c, MSI) || OnlyKind(c, MTI) ==> ManualKind(c) == Some(CauseCode(c)) && !OnlyKind(c, MEI)
    ensures ManualKind(c).Some? && (OnlyKind(c, MSI) || OnlyKind(c, MTI) || OnlyKind(c, MEI))
  {
    hide Bits;
    assert MSI != MEI && MTI != MEI && MSI in {MSI} && MTI in {MTI} && MEI in {MEI};
    if OnlyKind(c, MSI) { SoleKind(c, MSI); }
    if OnlyKind(c, MTI) { SoleKind(c, MTI); }
    if OnlyKind(c, MEI) { SoleKind(c, MEI); }
  }

  lemma ManualEnters(c: Ctl)
    requires ManualKind(c).Some?
    ensures !ManualTrap(c, c)
  {
    hide Bits, Vector;
  }

  /** Two kinds at once: the manual takes the external one, the core none. */
  lemma TwoKindsWait(c: Ctl)
    requires MIE in Bits(c.mstatus) && {MEI, MSI} <= Bits(c.mie) * Bits(c.mip)
    ensures ManualKind(c) == Some(MEI) && Prelude(c) == c && !ManualTrap(c, Prelude(c))
  {
    hide Prelude, Bits, Vector, ManualTrap;
    assert MEI != MSI;
    assert !OnlyKind(c, MEI) by { assert MSI !in {MEI}; }
    TakenIffSole(c);
    NoTrap(c);
    ManualEnters(c);
  }

  // ----- the CSR file -----

  /** The six implemented CSRs by their standard addresses. */
  function CsrFile(c: Ctl): map<u32, u32> {
    map[0x300 := c.mstatus, 0x304 := c.mie, 0x305 := c.mtvec, 0x341 := c.mepc, 0x342 := c.mcause, 0x344 := c.mip]
  }

  /** Reads and writes are those of a file in which every other address reads zero and ignores writes;
      a write changes nothing else. */
  lemma CsrAccess(c: Ctl, csr: u32, val: u32)
    ensures var f, d := CsrFile(c), WriteCsr(c, csr, val);
      && ReadCsr(c, csr) == (if csr in f then f[csr] else 0)
      && CsrFile(d) == (if csr in f then f[csr := val] else f)
      && d == c.(mstatus := d.mstatus, mie := d.mie, mtvec := d.mtvec, mepc := d.mepc, mcause := d.mcause, mip := d.mip)
  {
    var f, d := CsrFile(c), WriteCsr(c, csr, val);
    if csr in f { assert CsrFile(d) == f[csr := val]; }
  }
}
