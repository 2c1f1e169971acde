/**
 The emulator as the source has it: one object updated in place, registers,
 breakpoint slots and RAM in fixed arrays, with the loops of src/rv32.h.  Every
 method is proved against the functions of Control, Memory and Core.
 */
module Machine {
  import opened Words
  import opened Immediates
  import opened Alu
  import M = Memory
  import C = Control
  import Core

  type Host = M.Host
  type Status = M.Status

  class RV32 {
    var status: Status
    var bpMask: u8
    const bp: array<u32>
    const r: array<u32>
    var pc: u32
    var mstatus: u32
    var mie: u32
    var mip: u32
    var mtvec: u32
    var mepc: u32
    var mcause: u32
    var wfi: bool
    var ie: u32
    var ip: u32
    const mem: array<u8>

    ghost predicate Valid() {
      bp.Length == 8 && r.Length == 32 && 4 <= mem.Length < TWO_32 && bp != r
    }

    ghost function Control(): C.Ctl
      reads this, bp
    {
      C.Ctl(status, bpMask, bp[..], pc, mstatus, mie, mip, mtvec, mepc, mcause, wfi, ie, ip)
    }

    ghost function View(): (s: Core.Cpu)
      requires Valid()
      reads this, bp, r, mem
      ensures s.Valid()
    {
      Core.Cpu(Control(), r[..], mem[..])
    }

    // ----- construction and reset -----

    constructor (ram: array<u8>)
      requires 4 <= ram.Length < TWO_32
      modifies ram
      ensures Valid() && mem == ram && fresh(bp) && fresh(r)
      ensures View() == Core.ResetState(old(ram[..]))
    {
      bp := new u32[8](_ => 0);
      r := new u32[32](_ => 0);
      mem := ram;
      status, bpMask, pc := M.Paused, 0, 0;
      mstatus, mie, mip, mtvec, mepc, mcause := 0, 0, 0, 0, 0, 0;
      wfi, ie, ip := false, 0, 0;
      new;
      for i := 0 to Core.RAM_IN_STRUCT
        modifies ram
        invariant forall j :: 0 <= j < i ==> mem[j] == 0
        invariant forall j :: i <= j < mem.Length ==> mem[j] == old(ram[j])
      {
        mem[i] := 0;
      }
      assert bp[..] == seq(8, _ => 0) && r[..] == seq(32, _ => 0);
      assert mem[..] == seq(Core.RAM_IN_STRUCT, _ => 0) + old(ram[Core.RAM_IN_STRUCT..]);
    }

    method Reset()
      requires Valid()
      modifies this, bp, r, mem
      ensures View() == Core.ResetState(old(mem[..]))
    {
      ZeroWords(bp);
      ZeroWords(r);
      ZeroStructRam();
      ResetFields();
    }

    method ResetFields()
      requires Valid()
      modifies this
      ensures Control() == old(Core.ResetControl(bp[..]))
    {
      ghost var slots := bp[..];
      status, bpMask, pc := M.Paused, 0, 0;
      mstatus, mie, mip, mtvec, mepc, mcause := 0, 0, 0, 0, 0, 0;
      wfi, ie, ip := false, 0, 0;
      assert bp[..] == slots;
    }

    static method ZeroWords(a: array<u32>)
      modifies a
      ensures a[..] == seq(a.Length, _ => 0)
    {
      for i := 0 to a.Length
        invariant forall j :: 0 <= j < i ==> a[j] == 0
      {
        a[i] := 0;
      }
    }

    method ZeroStructRam()
      requires Valid()
      modifies mem
      ensures mem[..] == seq(Core.RAM_IN_STRUCT, _ => 0) + old(mem[..])[Core.RAM_IN_STRUCT..]
    {
      for i := 0 to Core.RAM_IN_STRUCT
        invariant forall j :: 0 <= j < i ==> mem[j] == 0
        invariant forall j :: i <= j < mem.Length ==> mem[j] == old(mem[j])
      {
        mem[i] := 0;
      }
    }

    method Resume()
      requires Valid()
      modifies this`status
      ensures Control() == C.Resume(old(Control()))
    {
      if status == M.Paused { status := M.Running; }
    }

    // ----- interrupts -----

    method ClaimIrq() returns (ok: bool, irq: u32)
      requires Valid()
      modifies this`ip, this`mip
      ensures var (d, claimed) := C.ClaimIrq(old(Control()));
        Control() == d && ok == claimed.Some? && (ok ==> irq == claimed.value)
      ensures ok ==> irq < 32
    {
      hide And, Shl, C.ClearBit;
      ok, irq := false, 0;
      if And(ie, ip) != 0 {
        for i := 0 to 32
          invariant ip == old(ip) && mip == old(mip)
          invariant C.LowestSet(ip, 0) == C.LowestSet(ip, i)
        {
          if And(ip, Shl(1, i)) != 0 {
            irq := i;
            ip := C.ClearBit(ip, i);
            if ip == 0 { mip := C.ClearBit(mip, C.MEI); }
            return true, irq;
          }
        }
      }
    }

    method HandleInterrupt()
      requires Valid()
      modifies this
      ensures Control() == C.HandleInterrupt(old(Control()))
    {
      hide And, Shl, Not32, Or32, Wrap, C.SetBit, C.GetBit, C.LowestSet, C.ClearBit;
      ghost var slots := bp[..];
      if C.GetBit(mstatus, C.MIE) == 0 { return; }
      var pending := And(mie, mip);
      if pending == Shl(1, C.MSI) {
        mcause := 0x8000_0003;
      } else if pending == Shl(1, C.MTI) {
        mcause := 0x8000_0007;
      } else if pending == Shl(1, C.MEI) {
        var ok, irq := ClaimIrq();
        if !ok { return; }
        mcause := Or32(0x8000_0000, Wrap(16 + irq));
      } else {
        return;
      }
      mepc := pc;
      mstatus := C.SetBit(mstatus, C.MPIE, C.GetBit(mstatus, C.MIE));
      mstatus := C.SetBit(mstatus, C.MIE, 0);
      var base := And(mtvec, Not32(3));
      if And(mtvec, 1) != 0 {
        pc := Wrap(base + 4 * And(mcause, Not32(Shl(1, 31))));
      } else {
        pc := mtvec;
      }
      wfi := false;
      assert bp[..] == slots;
    }

    method TriggerExternalInterrupt(irq: u32)
      requires Valid()
      modifies this`mip, this`ip
      ensures Control() == C.Trigger(old(Control()), irq)
    {
      if irq >= 4 { return; }
      mip := C.SetBit(mip, C.MEI, 1);
      ip := Or32(ip, Shl(1, irq));
    }

    method ReadCsr(csr: u32) returns (val: u32)
      requires Valid()
      ensures val == C.ReadCsr(Control(), csr)
    {
      match csr
      case 0x300 => val := mstatus;
      case 0x304 => val := mie;
      case 0x305 => val := mtvec;
      case 0x341 => val := mepc;
      case 0x342 => val := mcause;
      case 0x344 => val := mip;
      case _ => val := 0;
    }

    method WriteCsr(csr: u32, val: u32)
      requires Valid()
      modifies this
      ensures Control() == C.WriteCsr(old(Control()), csr, val)
    {
      match csr
      case 0x300 => mstatus := val;
      case 0x304 => mie := val;
      case 0x305 => mtvec := val;
      case 0x341 => mepc := val;
      case 0x342 => mcause := val;
      case 0x344 => mip := val;
      case _ =>
    }

    // ----- memory -----

    method Load8(host: Host, addr: u32) returns (v: Option<u8>)
      requires Valid()
      ensures v == M.Load8(mem[..], host, addr)
    {
      if addr <= mem.Length - 1 { return Some(mem[addr]); }
      v := host.load8(addr);
    }

    method Load16(host: Host, addr: u32) returns (v: Option<M.u16>)
      requires Valid()
      ensures v == M.Load16(mem[..], host, addr)
    {
      if addr <= mem.Length - 2 { return Some(M.Word16(mem[..], addr)); }
      v := host.load16(addr);
    }

    method Load32(host: Host, addr: u32) returns (v: Option<u32>)
      requires Valid()
      ensures v == M.Load32(mem[..], ie, host, addr)
    {
      if addr <= mem.Length - 4 { return Some(M.Word32(mem[..], addr)); }
      if addr == M.CONTROLLER { return Some(ie); }
      v := host.load32(addr);
    }

    method Store8(host: Host, addr: u32, v: u8) returns (ok: bool)
      requires Valid()
      modifies mem
      ensures var m := M.Store8(old(mem[..]), host, addr, v);
        ok == m.Some? && mem[..] == if ok then m.value else old(mem[..])
    {
      if addr <= mem.Length - 1 {
        mem[addr] := v;
        return true;
      }
      ok := host.store8(addr, v);
    }

    method Store16(host: Host, addr: u32, v: M.u16) returns (ok: bool)
      requires Valid()
      modifies mem
      ensures var m := M.Store16(old(mem[..]), host, addr, v);
        ok == m.Some? && mem[..] == if ok then m.value else old(mem[..])
    {
      if addr <= mem.Length - 2 {
        mem[addr], mem[addr + 1] := v % 0x100, v / 0x100;
        return true;
      }
      ok := host.store16(addr, v);
    }

    method Store32(host: Host, addr: u32, v: u32) returns (ok: bool)
      requires Valid()
      modifies mem, this`ie
      ensures var m := M.Store32(old(mem[..]), old(ie), host, addr, v);
        && ok == m.Some?
        && mem[..] == (if ok then m.value.0 else old(mem[..]))
        && ie == (if ok then m.value.1 else old(ie))
    {
      if addr <= mem.Length - 4 {
        mem[addr], mem[addr + 1] := v % 0x100, v / 0x100 % 0x100;
        mem[addr + 2], mem[addr + 3] := v / 0x1_0000 % 0x100, v / 0x100_0000;
        return true;
      }
      if addr == M.CONTROLLER {
        ie := v;
        return true;
      }
      ok := host.store32(addr, v);
    }

    // ----- one instruction -----

    method Register(w: u32)
      requires Valid() && Opcode(w) == 0x33
      modifies this`status, this`pc, r
      ensures View() == Core.WriteBack(old(View()), w,
                          Core.RegisterOp(Funct3(w), Funct7(w), old(r[Rs1(w)]), old(r[Rs2(w)])))
    {
      hide And, Or32, Xor32, Shl, Shr, Sar, Mul, Mulh, Mulhsu, Mulhu, Div, Divu, Rem, Remu, Wrap, Signed,
           Rd, Rs1, Rs2, Funct3, Funct7;
      var a, b := r[Rs1(w)], r[Rs2(w)];
      var result: u32;
      if Funct7(w) == 1 {
        match Funct3(w)
        case 0 => result := Mul(a, b);
        case 1 => result := Mulh(a, b);
        case 2 => result := Mulhsu(a, b);
        case 3 => result := Mulhu(a, b);
        case 4 => result := Div(a, b);
        case 5 => result := Divu(a, b);
        case 6 => result := Rem(a, b);
        case 7 => result := Remu(a, b);
        case _ =>
          status := M.InvalidInstruction;
          return;
      } else {
        match Funct3(w)
        case 0 =>
          if Funct7(w) == 0 {
            result := Wrap(a as int + b);
          } else if Funct7(w) == 0x20 {
            result := Wrap(a as int - b);
          } else {
            status := M.InvalidInstruction;
            return;
          }
        case 4 => result := Xor32(a, b);
        case 6 => result := Or32(a, b);
        case 7 => result := And(a, b);
        case 1 => result := Shl(a, And(b, 0x1f));
        case 5 =>
          if Funct7(w) == 0 {
            result := Shr(a, And(b, 0x1f));
          } else if Funct7(w) == 0x20 {
            result := Sar(a, And(b, 0x1f));
          } else {
            status := M.InvalidInstruction;
            return;
          }
        case 2 => result := if Signed(a) < Signed(b) then 1 else 0;
        case 3 => result := if a < b then 1 else 0;
        case _ =>
          status := M.InvalidInstruction;
          return;
      }
      Retire(w, result);
    }

    /** The common tail: write the destination register and go to the next instruction. */
    method Retire(w: u32, result: u32)
      requires Valid()
      modifies this`pc, r
      ensures View() == Core.Next(Core.SetReg(old(View()), Rd(w), result))
    {
      hide Rd, Wrap;
      r[Rd(w)] := result;
      pc := Wrap(pc as int + 4);
      assert r[..] == old(r[..])[Rd(w) := result];
    }

    method Immediate(w: u32)
      requires Valid() && Opcode(w) == 0x13
      modifies this`status, this`pc, r
      ensures View() == Core.WriteBack(old(View()), w, Core.ImmediateOp(w, old(r[Rs1(w)])))
    {
      hide And, Or32, Xor32, Shl, Shr, Sar, Wrap, Signed, Rd, Rs1, Funct3, Funct7, ImmI, SExtImmI;
      var a := r[Rs1(w)];
      var result: u32;
      match Funct3(w) {
        case 0 => result := Wrap(a as int + SExtImmI(w));
        case 4 => result := Xor32(a, SExtImmI(w));
        case 6 => result := Or32(a, SExtImmI(w));
        case 7 => result := And(a, SExtImmI(w));
        case 1 => result := Shl(a, And(ImmI(w), 0x1f));
        case 5 =>
          if Funct7(w) == 0 {
            result := Shr(a, And(ImmI(w), 0x1f));
          } else if Funct7(w) == 0x20 {
            result := Sar(a, And(ImmI(w), 0x1f));
          } else {
            status := M.InvalidInstruction;
            return;
          }
        case 2 => result := if Signed(a) < Signed(SExtImmI(w)) then 1 else 0;
        case 3 => result := if a < ImmI(w) then 1 else 0;
        case _ =>
          status := M.InvalidInstruction;
          return;
      }
      Retire(w, result);
    }

    method LoadOp(w: u32, host: Host)
      requires Valid() && Opcode(w) == 0x03
      modifies this`status, this`pc, r
      ensures View() == Core.ExecuteLoad(old(View()), w, host)
    {
      hide SExt, Rd, Rs1, Funct3, SExtImmI, M.Load8, M.Load16, M.Load32;
      var addr := Wrap(r[Rs1(w)] as int + SExtImmI(w));
      var result: u32;
      match Funct3(w) {
        case 0 =>
          var v := Load8(host, addr);
          if v.None? { status := M.InvalidMemoryAccess; return; }
          result := SExt(v.value, 8);
        case 1 =>
          var v := Load16(host, addr);
          if v.None? { status := M.InvalidMemoryAccess; return; }
          result := SExt(v.value, 16);
        case 2 =>
          var v := Load32(host, addr);
          if v.None? { status := M.InvalidMemoryAccess; return; }
          result := v.value;
        case 4 =>
          var v := Load8(host, addr);
          if v.None? { status := M.InvalidMemoryAccess; return; }
          result := v.value;
        case 5 =>
          var v := Load16(host, addr);
          if v.None? { status := M.InvalidMemoryAccess; return; }
          result := v.value;
        case _ =>
          status := M.InvalidInstruction;
          return;
      }
      Retire(w, result);
    }

    method StoreOp(w: u32, host: Host)
      requires Valid() && Opcode(w) == 0x23
      modifies this`status, this`pc, this`ie, mem
      ensures View() == Core.ExecuteStore(old(View()), w, host)
    {
      hide And, Wrap, Rs1, Rs2, Funct3, SExtImmS, M.Store8, M.Store16, M.Store32;
      M.MasksAreResidues(r[Rs2(w)]);
      var addr := Wrap(r[Rs1(w)] as int + SExtImmS(w));
      var ok: bool;
      match Funct3(w) {
        case 0 => ok := Store8(host, addr, And(r[Rs2(w)], 0xff));
        case 1 => ok := Store16(host, addr, And(r[Rs2(w)], 0xffff));
        case 2 => ok := Store32(host, addr, r[Rs2(w)]);
        case _ =>
          status := M.InvalidInstruction;
          return;
      }
      if !ok {
        status := M.InvalidMemoryAccess;
        return;
      }
      pc := Wrap(pc as int + 4);
    }

    method Branch(w: u32)
      requires Valid() && Opcode(w) == 0x63
      modifies this`status, this`pc
      ensures View() == Core.ExecuteBranch(old(View()), w)
    {
      hide Wrap, Signed, Rs1, Rs2, Funct3, SExtImmB;
      var a, b := r[Rs1(w)], r[Rs2(w)];
      var taken: bool;
      match Funct3(w) {
        case 0 => taken := a == b;
        case 1 => taken := a != b;
        case 4 => taken := Signed(a) < Signed(b);
        case 5 => taken := Signed(a) >= Signed(b);
        case 6 => taken := a < b;
        case 7 => taken := a >= b;
        case _ =>
          status := M.InvalidInstruction;
          return;
      }
      if taken { pc := Wrap(pc as int + SExtImmB(w)); } else { pc := Wrap(pc as int + 4); }
    }

    method Jump(w: u32)
      requires Valid() && Opcode(w) in {0x6f, 0x67}
      modifies this`pc, r
      ensures View() == if Opcode(w) == 0x6f then
          Core.Jump(Core.SetReg(old(View()), Rd(w), Wrap(old(pc) as int + 4)), Wrap(old(pc) as int + SExtImmJ(w)))
        else
          Core.SetReg(Core.Jump(old(View()), And(Wrap(old(r[Rs1(w)]) as int + SExtImmI(w)), Not32(1))), Rd(w),
                      Wrap(old(pc) as int + 4))
    {
      hide And, Wrap, Rd, Rs1, SExtImmI, SExtImmJ, Opcode;
      if Opcode(w) == 0x6f {
        r[Rd(w)] := Wrap(pc as int + 4);
        pc := Wrap(pc as int + SExtImmJ(w));
      } else {
        var link := Wrap(pc as int + 4);
        pc := And(Wrap(r[Rs1(w)] as int + SExtImmI(w)), Not32(1));
        r[Rd(w)] := link;
      }
      assert r[..] == old(r[..])[Rd(w) := Wrap(old(pc) as int + 4)];
    }

    method Csr(w: u32)
      requires Valid() && Opcode(w) == 0x73
      modifies this, r
      ensures View() == Core.ExecuteCsr(old(View()), w)
    {
      hide And, Or32, Not32, Rd, Rs1, Funct3, ImmI, C.ReadCsr, C.WriteCsr;
      var prior := ReadCsr(ImmI(w));
      var imm, rs1 := Rs1(w), r[Rs1(w)];
      var written: u32;
      match Funct3(w) {
        case 1 => written := rs1;
        case 2 => written := Or32(prior, rs1);
        case 3 => written := And(prior, Not32(rs1));
        case 5 => written := imm;
        case 6 => written := Or32(prior, imm);
        case 7 => written := And(prior, Not32(imm));
        case _ =>
          status := M.InvalidInstruction;
          return;
      }
      WriteCsr(ImmI(w), written);
      Retire(w, prior);
    }

    /** The ecall hook: whatever it answers becomes status, registers and RAM. */
    method Ecall(host: Host)
      requires Valid()
      modifies this`status, r, mem
      ensures var a := M.EcallAnswer(host, old(r[..]), old(mem[..]));
        status == a.status && r[..] == a.r && mem[..] == a.mem
    {
      var a := M.EcallAnswer(host, r[..], mem[..]);
      status := a.status;
      forall i | 0 <= i < 32 { r[i] := a.r[i]; }
      forall i | 0 <= i < mem.Length { mem[i] := a.mem[i]; }
    }

    method System(w: u32, host: Host)
      requires Valid() && Opcode(w) == 0x73
      modifies this, r, mem
      ensures View() == Core.ExecuteSystem(old(View()), w, host)
    {
      hide And, Wrap, Funct3, ImmI, C.SetBit, C.GetBit, Core.ExecuteCsr;
      ghost var slots := bp[..];
      if Funct3(w) == 0 {
        match ImmI(w)
        case 0 =>
          Ecall(host);
          if status != M.Running { return; }
          pc := Wrap(pc as int + 4);
        case 1 =>
          status := M.Ebreak;
          pc := Wrap(pc as int + 4);
        case 0x302 =>
          pc := mepc;
          mstatus := C.SetBit(mstatus, C.MIE, C.GetBit(mstatus, C.MPIE));
        case 0x105 =>
          wfi := true;
          pc := Wrap(pc as int + 4);
        case _ =>
          status := M.InvalidInstruction;
      } else if And(Funct3(w), 3) != 0 {
        Csr(w);
      } else {
        status := M.InvalidInstruction;
      }
    }

    method Execute(w: u32, host: Host)
      requires Valid()
      modifies this, r, mem
      ensures View() == Core.Execute(old(View()), w, host)
    {
      hide Shl, Wrap, Rd, Opcode, SExtImmU, Core.WriteBack, Core.ExecuteLoad, Core.ExecuteStore, Core.ExecuteBranch,
           Core.ExecuteSystem;
      match Opcode(w)
      case 0x33 => Register(w);
      case 0x13 => Immediate(w);
      case 0x03 => LoadOp(w, host);
      case 0x23 => StoreOp(w, host);
      case 0x63 => Branch(w);
      case 0x6f => Jump(w);
      case 0x67 => Jump(w);
      case 0x37 => Retire(w, Shl(SExtImmU(w), 12));
      case 0x17 => Retire(w, Wrap(pc as int + Shl(SExtImmU(w), 12)));
      case 0x73 => System(w, host);
      case _ => status := M.InvalidInstruction;
    }

    // ----- one cycle -----

    /** The scan over the breakpoint slots. */
    method AtBreakpoint() returns (hit: bool)
      requires Valid()
      ensures hit == C.BreakpointHit(Control())
    {
      hide C.SlotUsed;
      hit := false;
      if bpMask != 0 {
        for i := 0 to 8
          invariant C.HitFrom(Control(), 0) == C.HitFrom(Control(), i)
        {
          if C.SlotUsed(bpMask, i) && pc == bp[i] { return true; }
        }
      }
    }

    method Cycle(host: Host)
      requires Valid()
      modifies this, r, mem
      ensures View() == Core.Cycle(old(View()), host)
    {
      hide And, Wrap, C.GetBit, C.HandleInterrupt, C.BreakpointHit, M.Load32, Core.Execute;
      if C.GetBit(mstatus, C.MIE) != 0 && And(mie, mip) != 0 { HandleInterrupt(); }
      if wfi { return; }
      if status != M.Running { return; }
      var hit := AtBreakpoint();
      if hit {
        status := M.Paused;
        return;
      }
      var instr := Load32(host, pc);
      if instr.None? {
        status := M.InvalidMemoryAccess;
        return;
      }
      ghost var before := View();
      r[0] := 0;
      assert View() == Core.SetReg(before, 0, 0);
      Execute(instr.value, host);
    }

    // ----- breakpoints -----

    method SetBreakpoint(addr: u32) returns (ok: bool)
      requires Valid()
      modifies this`bpMask, bp
      ensures (Control(), ok) == C.SetBreakpoint(old(Control()), addr)
    {
      hide C.SlotUsed;
      ok := false;
      for i := 0 to 8
        invariant bpMask == old(bpMask) && bp[..] == old(bp[..])
        invariant C.FreeSlot(bpMask, 0) == C.FreeSlot(bpMask, i)
      {
        if !C.SlotUsed(bpMask, i) {
          bpMask := C.MarkSlot(bpMask, i);
          bp[i] := addr;
          return true;
        }
      }
    }

    method ClearBreakpoint(addr: u32) returns (ok: bool)
      requires Valid()
      modifies this`bpMask, bp
      ensures (Control(), ok) == C.ClearBreakpoint(old(Control()), addr)
    {
      hide C.SlotUsed;
      ok := false;
      for i := 0 to 8
        invariant bpMask == old(bpMask) && bp[..] == old(bp[..])
        invariant C.SlotHolding(bpMask, bp[..], addr, 0) == C.SlotHolding(bpMask, bp[..], addr, i)
      {
        if C.SlotUsed(bpMask, i) && bp[i] == addr {
          bpMask := C.ClearBit(bpMask, i);
          bp[i] := 0;
          return true;
        }
      }
    }

    method ClearAllBreakpoints()
      requires Valid()
      modifies this`bpMask, bp
      ensures Control() == C.ClearAllBreakpoints(old(Control()))
    {
      bpMask := 0;
      ZeroWords(bp);
    }
  }
}
