/**
 The part of the core that is neither registers nor RAM: run state, CSRs,
 interrupt controller and breakpoint slots, with the operations on them.
 */
module Control {
  import opened Words
  import opened Memory

  datatype Ctl = Ctl(
    status: Status, bpMask: u8, bp: seq<u32>, pc: u32,
    mstatus: u32, mie: u32, mip: u32, mtvec: u32, mepc: u32, mcause: u32,
    wfi: bool, ie: u32, ip: u32)

  const MIE: nat := 3
  const MPIE: nat := 7
  const MSI: nat := 3
  const MTI: nat := 7
  const MEI: nat := 11

  // ----- the CSR bit macros -----

  function ClearBit(x: u32, i: nat): (r: u32)
    ensures r <= x
  {
    And(x, Not32(Shl(1, i)))
  }

  function SetBit(x: u32, i: nat, val: u32): u32 {
    Or32(And(x, Not32(Shl(1, i))), Shl(if val != 0 then 1 else 0, i))
  }

  function GetBit(x: u32, i: nat): u32 {
    And(Shr(x, i), 1)
  }

  // ----- interrupts -----

  /** The scan of the claim loop from bit i up. */
  function LowestSet(x: u32, i: nat): (r: Option<u32>)
    ensures r.Some? ==> i <= r.value < 32
    decreases 32 - i
  {
    if i >= 32 then None
    else if And(x, Shl(1, i)) != 0 then Some(i)
    else LowestSet(x, i + 1)
  }

  function ClaimIrq(c: Ctl): (Ctl, Option<u32>) {
    if And(c.ie, c.ip) == 0 then (c, None)
    else match LowestSet(c.ip, 0)
      case None => (c, None)
      case Some(i) =>
        var ip := ClearBit(c.ip, i);
        (c.(ip := ip, mip := if ip == 0 then ClearBit(c.mip, MEI) else c.mip), Some(i))
  }

  /** Where a trap with this mtvec and mcause goes. */
  function TrapTarget(mtvec: u32, mcause: u32): u32 {
    if And(mtvec, 1) != 0 then
      Wrap(And(mtvec, Not32(3)) + 4 * And(mcause, Not32(Shl(1, 31))))
    else mtvec
  }

  function EnterTrap(c: Ctl, mcause: u32): Ctl {
    c.(mcause := mcause,
       mepc := c.pc,
       mstatus := SetBit(SetBit(c.mstatus, MPIE, GetBit(c.mstatus, MIE)), MIE, 0),
       pc := TrapTarget(c.mtvec, mcause),
       wfi := false)
  }

  function HandleInterrupt(c: Ctl): Ctl {
    if GetBit(c.mstatus, MIE) == 0 then c
    else
      var pending := And(c.mie, c.mip);
      if pending == Shl(1, MSI) then EnterTrap(c, 0x8000_0003)
      else if pending == Shl(1, MTI) then EnterTrap(c, 0x8000_0007)
      else if pending == Shl(1, MEI) then
        match ClaimIrq(c) {
          case (_, None) => c
          case (d, Some(irq)) => EnterTrap(d, Or32(0x8000_0000, Wrap(16 + irq)))
        }
      else c
  }

  /** What every cycle does first. */
  function Prelude(c: Ctl): (d: Ctl)
    ensures d.bp == c.bp && d.bpMask == c.bpMask
  {
    if GetBit(c.mstatus, MIE) != 0 && And(c.mie, c.mip) != 0 then HandleInterrupt(c) else c
  }

  function Trigger(c: Ctl, irq: u32): Ctl {
    if irq >= 4 then c
    else c.(mip := SetBit(c.mip, MEI, 1), ip := Or32(c.ip, Shl(1, irq)))
  }

  // ----- CSRs -----

  function ReadCsr(c: Ctl, csr: u32): u32 {
    if csr == 0x300 then c.mstatus
    else if csr == 0x304 then c.mie
    else if csr == 0x305 then c.mtvec
    else if csr == 0x341 then c.mepc
    else if csr == 0x342 then c.mcause
    else if csr == 0x344 then c.mip
    else 0
  }

  function WriteCsr(c: Ctl, csr: u32, val: u32): (d: Ctl)
    ensures d.bp == c.bp
  {
    if csr == 0x300 then c.(mstatus := val)
    else if csr == 0x304 then c.(mie := val)
    else if csr == 0x305 then c.(mtvec := val)
    else if csr == 0x341 then c.(mepc := val)
    else if csr == 0x342 then c.(mcause := val)
    else if csr == 0x344 then c.(mip := val)
    else c
  }

  function Mret(c: Ctl): Ctl {
    c.(pc := c.mepc, mstatus := SetBit(c.mstatus, MIE, GetBit(c.mstatus, MPIE)))
  }

  // ----- run control and breakpoints -----

  function Resume(c: Ctl): Ctl {
    if c.status == Paused then c.(status := Running) else c
  }

  predicate SlotUsed(mask: u8, i: nat) {
    And(mask, Shl(1, i)) != 0
  }

  /** The breakpoint scan of a cycle, from slot i. */
  predicate HitFrom(c: Ctl, i: nat)
    requires |c.bp| == 8
    decreases 8 - i
  {
    i < 8 && ((SlotUsed(c.bpMask, i) && c.pc == c.bp[i]) || HitFrom(c, i + 1))
  }

  predicate BreakpointHit(c: Ctl)
    requires |c.bp| == 8
  {
    c.bpMask != 0 && HitFrom(c, 0)
  }

  function FreeSlot(mask: u8, i: nat): (r: Option<nat>)
    ensures r.Some? ==> i <= r.value < 8
    decreases 8 - i
  {
    if i >= 8 then None
    else if !SlotUsed(mask, i) then Some(i)
    else FreeSlot(mask, i + 1)
  }

  function SlotHolding(mask: u8, bp: seq<u32>, addr: u32, i: nat): (r: Option<nat>)
    requires |bp| == 8
    ensures r.Some? ==> i <= r.value < 8
    decreases 8 - i
  {
    if i >= 8 then None
    else if SlotUsed(mask, i) && bp[i] == addr then Some(i)
    else SlotHolding(mask, bp, addr, i + 1)
  }

  function MarkSlot(mask: u8, i: nat): u8
    requires i < 8
  {
    Pow2Values();
    OrBound(mask, Shl(1, i), 8);
    Or(mask, Shl(1, i))
  }

  function SetBreakpoint(c: Ctl, addr: u32): (r: (Ctl, bool))
    requires |c.bp| == 8
    ensures |r.0.bp| == 8
  {
    match FreeSlot(c.bpMask, 0)
    case None => (c, false)
    case Some(i) => (c.(bpMask := MarkSlot(c.bpMask, i), bp := c.bp[i := addr]), true)
  }

  function ClearBreakpoint(c: Ctl, addr: u32): (r: (Ctl, bool))
    requires |c.bp| == 8
    ensures |r.0.bp| == 8
  {
    match SlotHolding(c.bpMask, c.bp, addr, 0)
    case None => (c, false)
    case Some(i) => (c.(bpMask := ClearBit(c.bpMask, i), bp := c.bp[i := 0]), true)
  }

  function ClearAllBreakpoints(c: Ctl): (d: Ctl)
    ensures |d.bp| == 8
  {
    c.(bpMask := 0, bp := seq(8, _ => 0))
  }
}
