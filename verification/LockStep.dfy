/** The older and the current core agree over whole runs that stay in RAM and away from SYSTEM. */
module LockStep {
  import opened Words
  import opened Immediates
  import opened Memory
  import opened Control
  import Interrupts
  import IsaArithmetic
  import IsaRefinement
  import Core
  import OldCore
  import Alu

  type Cpu = Core.Cpu
  type Old = OldCore.Old
  type Result = OldCore.Result

  /** Same registers, pc and RAM. */
  predicate Same(s: Cpu, o: Old) {
    s.Valid() && o.Valid() && s.r == o.r && s.ctl.pc == o.pc && s.mem == o.mem
  }

  /** A status and an error code that say the same. */
  predicate Reports(status: Status, res: Result) {
    match res
    case Ok => status == Running
    case InvalidMemory => status == InvalidMemoryAccess
    case _ => status == Status.InvalidInstruction
  }

  /** Running, not waiting, no breakpoints, and no trap due. */
  predicate Plain(c: Ctl) {
    !c.wfi && c.bpMask == 0 && !Interrupts.TrapDue(c)
  }

  // ----- bytes and words -----

  lemma BytesJoin(a: u8, b: u8, c: u8, d: u8)
    ensures Or32(a, Shl(b, 8)) == a as int + 0x100 * b as int
    ensures Or32(Or32(Or32(a, Shl(b, 8)), Shl(c, 16)), Shl(d, 24))
         == a as int + 0x100 * b as int + 0x1_0000 * c as int + 0x100_0000 * d as int
  {
    hide Or, Pow2;
    Pow2Values();
    Join(a, b * 0x100, 8, 0x100, b);
    var ab := a as int + 0x100 * b as int;
    Join(ab, c * 0x1_0000, 16, 0x1_0000, c);
    var abc := ab + 0x1_0000 * c as int;
    Join(abc, d * 0x100_0000, 24, 0x100_0000, d);
  }

  /** Joining bytes with `|` and `<<` reads the same value as the word access. */
  lemma LoadsAgree(mem: seq<u8>, ie: u32, host: Host, funct3: u32, addr: u32)
    requires RamSize(mem) && Core.LoadKind(funct3).Some?
    ensures var (width, signed) := Core.LoadKind(funct3).value;
      OldCore.LoadBytes(mem, funct3, addr)
        == if InRam(mem, addr, width) then
             (Some(Core.Extended(width, signed, Load(width, mem, ie, host, addr).value)), OldCore.Ok)
           else (None, OldCore.InvalidMemory)
  {
    hide SExt, Or32, Shl;
    if addr + 4 <= |mem| { BytesJoin(mem[addr], mem[addr + 1], mem[addr + 2], mem[addr + 3]); }
    else if addr + 2 <= |mem| { BytesJoin(mem[addr], mem[addr + 1], 0, 0); }
  }

  /** Storing byte by byte leaves the same RAM as the word access. */
  lemma StoresAgree(mem: seq<u8>, ie: u32, host: Host, funct3: u32, addr: u32, v: u32)
    requires RamSize(mem) && Core.StoreKind(funct3).Some? && (funct3 == 1 ==> addr != |mem| - 1)
    ensures var width := Core.StoreKind(funct3).value;
      OldCore.StoreBytes(mem, funct3, addr, v)
        == if InRam(mem, addr, width) then (Some(Store(width, mem, ie, host, addr, v).value.0), OldCore.Ok)
           else (None, OldCore.InvalidMemory)
  {
    hide And, Shr;
    BytesByShift(v);
    MasksAreResidues(v);
    if funct3 == 1 && addr + 2 <= |mem| {
      HalfDigits(v);
    } else if funct3 == 2 && addr + 4 <= |mem| {
      assert OldCore.StoreBytes(mem, 2, addr, v).0 == Some(Put32(mem, addr, v));
    }
  }

  lemma HalfDigits(v: u32)
    ensures v % 0x1_0000 % 0x100 == v % 0x100 && v % 0x1_0000 / 0x100 == v / 0x100 % 0x100
  {
  }

  // ----- the domain of agreement -----

  /** An access outside RAM is one the platform refuses too. */
  predicate LoadInRam(s: Cpu, w: u32, host: Host)
    requires s.Valid()
  {
    var addr := Wrap(s.r[Rs1(w)] + SExtImmI(w));
    match Core.LoadKind(Funct3(w))
    case Some((width, _)) => InRam(s.mem, addr, width) || Load(width, s.mem, s.ctl.ie, host, addr).None?
    case None => true
  }

  predicate StoreInRam(s: Cpu, w: u32, host: Host)
    requires s.Valid()
  {
    var addr := Wrap(s.r[Rs1(w)] + SExtImmS(w));
    match Core.StoreKind(Funct3(w))
    case Some(width) =>
      InRam(s.mem, addr, width) || Store(width, s.mem, s.ctl.ie, host, addr, s.r[Rs2(w)]).None?
    case None => true
  }

  /** What the instruction must avoid: SYSTEM, devices, jalr through its own link register or to an odd target. */
  predicate Shared(s: Cpu, w: u32, host: Host)
    requires s.Valid()
  {
    && Opcode(w) != 0x73
    && (Opcode(w) == 0x03 ==> LoadInRam(s, w, host))
    && (Opcode(w) == 0x23 ==> StoreInRam(s, w, host))
    && (Opcode(w) == 0x67 ==> Rd(w) != Rs1(w) && Wrap(s.r[Rs1(w)] + SExtImmI(w)) % 2 == 0)
  }

  // ----- one instruction -----

  /** What each lemma below shows of the two results. */
  predicate Agree(s: Cpu, t: Cpu, o: (Old, Result)) {
    && Same(t, o.0) && Reports(t.ctl.status, o.1)
    && t.ctl == s.ctl.(pc := t.ctl.pc, status := t.ctl.status)
  }

  lemma ShiftsAgree(funct3: u32, funct7: u32, a: u32, b: u32)
    requires funct7 != 1 && funct3 in {1, 5} ==> b < 32
    ensures OldCore.RegisterOp(funct3, funct7, a, b) == Core.RegisterOp(funct3, funct7, a, b)
  {
    hide And, Or32, Xor32, Shl, Shr, Alu.Sar, Core.MulDiv;
    IsaArithmetic.ShamtIsResidue(b);
  }

  lemma WriteBackAgrees(s: Cpu, o: Old, w: u32, result: Option<u32>)
    requires Same(s, o) && s.ctl.status == Running
    ensures Agree(s, Core.WriteBack(s, w, result), OldCore.WriteBack(o, w, result))
  {
    hide Rd;
  }

  lemma LoadAgrees(s: Cpu, o: Old, w: u32, host: Host)
    requires Same(s, o) && s.ctl.status == Running && LoadInRam(s, w, host)
    ensures Agree(s, Core.ExecuteLoad(s, w, host), OldCore.LoadOp(o, w))
  {
    hide Rd, Rs1, Funct3, SExtImmI, Core.Extended, Load, Wrap, FromBytes, OldCore.LoadBytes;
    var addr := Wrap(s.r[Rs1(w)] + SExtImmI(w));
    if Core.LoadKind(Funct3(w)).Some? {
      LoadsAgree(s.mem, s.ctl.ie, host, Funct3(w), addr);
      LoadReads(Core.LoadKind(Funct3(w)).value.0, s.mem, s.ctl.ie, host, addr, s.mem);
    } else {
      NoSuchLoad(s.mem, Funct3(w), addr);
    }
  }

  lemma NoSuchLoad(mem: seq<u8>, funct3: u32, addr: u32)
    requires RamSize(mem) && Core.LoadKind(funct3).None?
    ensures OldCore.LoadBytes(mem, funct3, addr) == (None, Result.InvalidInstruction)
  {
  }

  lemma StoreAgrees(s: Cpu, o: Old, w: u32, host: Host)
    requires Same(s, o) && s.ctl.status == Running && StoreInRam(s, w, host)
    requires Opcode(w) == 0x23 && OldCore.Defined(o, w)
    ensures Agree(s, Core.ExecuteStore(s, w, host), OldCore.StoreOp(o, w))
  {
    hide Rs1, Rs2, Funct3, SExtImmS, Store, Wrap, Splice;
    var addr := Wrap(s.r[Rs1(w)] + SExtImmS(w));
    if Core.StoreKind(Funct3(w)).Some? {
      StoresAgree(s.mem, s.ctl.ie, host, Funct3(w), addr, s.r[Rs2(w)]);
      StoreWrites(Core.StoreKind(Funct3(w)).value, s.mem, s.ctl.ie, host, addr, s.r[Rs2(w)]);
    }
  }

  lemma JalrAgrees(s: Cpu, o: Old, w: u32)
    requires Same(s, o) && Rd(w) != Rs1(w) && Wrap(s.r[Rs1(w)] + SExtImmI(w)) % 2 == 0
    ensures OldCore.Jalr(o, w)
         == OldCore.Old(s.r[Rd(w) := Wrap(s.ctl.pc + 4)], And(Wrap(s.r[Rs1(w)] + SExtImmI(w)), Not32(1)), s.mem)
  {
    hide And, Wrap, Rd, Rs1, SExtImmI;
    IsaRefinement.EvenTarget(Wrap(s.r[Rs1(w)] + SExtImmI(w)));
  }

  lemma ExecuteAgrees(s: Cpu, o: Old, w: u32, host: Host)
    requires Same(s, o) && s.ctl.status == Running
    requires OldCore.Defined(o, w) && Shared(s, w, host)
    ensures Agree(s, Core.Execute(s, w, host), OldCore.Execute(o, w))
  {
    hide Core.WriteBack, Core.RegisterOp, Core.ImmediateOp, Core.ExecuteLoad, Core.ExecuteStore, Core.BranchTaken,
         Core.ExecuteSystem, OldCore.WriteBack, OldCore.RegisterOp, OldCore.LoadOp, OldCore.StoreOp, OldCore.Jalr,
         And, Shl, Wrap, Rd, Rs1, Rs2, Funct3, Funct7, Opcode, ImmI, SExtImmB, SExtImmI, SExtImmJ, SExtImmU,
         LoadInRam, StoreInRam;
    match Opcode(w)
    case 0x33 =>
      ShiftsAgree(Funct3(w), Funct7(w), s.r[Rs1(w)], s.r[Rs2(w)]);
      WriteBackAgrees(s, o, w, Core.RegisterOp(Funct3(w), Funct7(w), s.r[Rs1(w)], s.r[Rs2(w)]));
    case 0x13 => WriteBackAgrees(s, o, w, Core.ImmediateOp(w, s.r[Rs1(w)]));
    case 0x03 => LoadAgrees(s, o, w, host);
    case 0x23 => StoreAgrees(s, o, w, host);
    case 0x67 => JalrAgrees(s, o, w);
    case _ =>
  }

  // ----- one cycle and whole runs -----

  /** The next cycle of both cores is in the domain of agreement. */
  predicate CycleShared(s: Cpu, o: Old, host: Host)
    requires s.Valid() && o.Valid()
  {
    && OldCore.CycleDefined(o)
    && if s.ctl.pc + 4 <= |s.mem| then Shared(Core.SetReg(s, 0, 0), Word32(s.mem, s.ctl.pc), host)
       else Load32(s.mem, s.ctl.ie, host, s.ctl.pc).None?
  }

  lemma CycleAgrees(s: Cpu, o: Old, host: Host)
    requires Same(s, o) && Plain(s.ctl) && s.ctl.status == Running
    requires CycleShared(s, o, host)
    ensures Agree(s, Core.Cycle(s, host), OldCore.OneCycle(o))
  {
    hide Prelude, Core.Execute, OldCore.Execute, OldCore.Defined, Shared, Word32, Interrupts.TrapDue;
    Interrupts.NoTrap(s.ctl);
    if s.ctl.pc < |s.mem| {
      ExecuteAgrees(Core.SetReg(s, 0, 0), o.Set(0, 0), Word32(s.mem, s.ctl.pc), host);
    }
  }

  /** C defines the first n cycles of the older core, which stops at its first error. */
  predicate OldDefined(o: Old, n: nat)
    requires o.Valid()
    decreases n, 0
  {
    n == 0 || (OldDefined(o, n - 1)
               && var (p, res) := RunOld(o, n - 1); res == OldCore.Ok ==> OldCore.CycleDefined(p))
  }

  function RunOld(o: Old, n: nat): (t: (Old, Result))
    requires o.Valid() && OldDefined(o, n)
    ensures t.0.Valid()
    decreases n, 1
  {
    if n == 0 then (o, OldCore.Ok)
    else
      var (p, res) := RunOld(o, n - 1);
      if res == OldCore.Ok then OldCore.OneCycle(p) else (p, res)
  }

  /** Every cycle of the run, up to an error, is in the domain of agreement. */
  predicate RunShared(s: Cpu, o: Old, es: seq<Core.Event>)
    requires s.Valid() && o.Valid() && OldDefined(o, |es|)
    decreases |es|
  {
    es == [] || (
      var front, last := es[..|es| - 1], es[|es| - 1];
      var (p, res) := RunOld(o, |es| - 1);
      last.Tick? && RunShared(s, o, front) && (res == OldCore.Ok ==> CycleShared(Core.Run(s, front), p, last.host)))
  }

  /** Lock step: after any number of cycles in the domain both cores hold the same registers (r[0]
      included), pc and RAM, and the status says what the error code says. */
  lemma {:induction false} RunsAgree(s: Cpu, o: Old, es: seq<Core.Event>)
    requires Same(s, o) && Plain(s.ctl) && s.ctl.status == Running
    requires OldDefined(o, |es|) && RunShared(s, o, es)
    ensures var t, u := Core.Run(s, es), RunOld(o, |es|);
      Same(t, u.0) && Reports(t.ctl.status, u.1) && Plain(t.ctl)
    decreases |es|
  {
    hide Core.Cycle, OldCore.OneCycle, CycleShared, OldCore.CycleDefined, Plain;
    if es != [] {
      var front, last := es[..|es| - 1], es[|es| - 1];
      RunsAgree(s, o, front);
      var t, u := Core.Run(s, front), RunOld(o, |es| - 1);
      if u.1 == OldCore.Ok {
        CycleAgrees(t, u.0, last.host);
        PlainStays(t.ctl, Core.Cycle(t, last.host).ctl);
      } else {
        StoppedStays(t, last.host);
      }
    }
  }

  lemma PlainStays(c: Ctl, d: Ctl)
    requires Plain(c) && d == c.(pc := d.pc, status := d.status)
    ensures Plain(d)
  {
  }

  lemma StoppedStays(s: Cpu, host: Host)
    requires s.Valid() && Plain(s.ctl) && s.ctl.status != Running
    ensures Core.Cycle(s, host) == s
  {
    hide Prelude, Core.Execute, Interrupts.TrapDue;
    Interrupts.NoTrap(s.ctl);
  }
}
