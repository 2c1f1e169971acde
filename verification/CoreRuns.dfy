/** What holds over whole runs of the core: any program, any start state, any interleaving of events. */
module CoreRuns {
  import opened Words
  import opened Immediates
  import opened Memory
  import opened Control
  import opened Interrupts
  import opened Breakpoints
  import opened Core

  // ----- which instructions touch which control fields -----

  predicate IsMret(w: u32) {
    Opcode(w) == 0x73 && Funct3(w) == 0 && ImmI(w) == 0x302
  }

  predicate WritesCsr(w: u32, csr: u32) {
    Opcode(w) == 0x73 && Funct3(w) != 0 && ImmI(w) == csr
  }

  lemma ExecuteControl(s: Cpu, w: u32, host: Host)
    requires s.Valid()
    ensures var c, d := s.ctl, Execute(s, w, host).ctl;
      && d.bp == c.bp && d.bpMask == c.bpMask && d.ip == c.ip
      && (!IsMret(w) && !WritesCsr(w, 0x300) ==> d.mstatus == c.mstatus)
      && (!WritesCsr(w, 0x341) ==> d.mepc == c.mepc)
      && (!WritesCsr(w, 0x304) ==> d.mie == c.mie)
      && (!WritesCsr(w, 0x344) ==> d.mip == c.mip)
      && (IsMret(w) ==> d == Mret(c))
  {
    hide RegisterOp, ImmediateOp, ExecuteSystem, ExecuteLoad, SExt, Opcode, Funct3, Funct7, ImmI, And, Load, Store;
    if Opcode(w) == 0x73 {
      SystemControl(s, w, host);
    } else if Opcode(w) == 0x03 {
      LoadControl(s, w, host);
    }
  }

  lemma SystemControl(s: Cpu, w: u32, host: Host)
    requires s.Valid() && Opcode(w) == 0x73
    ensures var c, d := s.ctl, ExecuteSystem(s, w, host).ctl;
      && d.bp == c.bp && d.bpMask == c.bpMask && d.ip == c.ip
      && (!IsMret(w) && !WritesCsr(w, 0x300) ==> d.mstatus == c.mstatus)
      && (!WritesCsr(w, 0x341) ==> d.mepc == c.mepc)
      && (!WritesCsr(w, 0x304) ==> d.mie == c.mie)
      && (!WritesCsr(w, 0x344) ==> d.mip == c.mip)
      && (IsMret(w) ==> d == Mret(c))
  {
    hide SetBit, GetBit, Opcode, Funct3, ImmI, And, CsrWritten;
  }

  lemma LoadControl(s: Cpu, w: u32, host: Host)
    requires s.Valid()
    ensures var d := ExecuteLoad(s, w, host).ctl; d == s.ctl.(status := d.status, pc := d.pc)
  {
    hide SExt, Funct3, And, Load, LoadKind;
  }

  /** A cycle is its prelude, and then at most one instruction. */
  lemma CycleControl(s: Cpu, host: Host)
    requires s.Valid()
    ensures var t, p := Cycle(s, host), s.(ctl := Prelude(s.ctl));
      if Fetched(s, host).Some? then t == Execute(SetReg(p, 0, 0), Fetched(s, host).value, host)
      else t == p.(ctl := p.ctl.(status := t.ctl.status))
  {
    hide Prelude, Execute, BreakpointHit, Load32;
  }

  // ----- what one cycle does, written out -----

  /** A cycle with everything named from the source's point of view: after the interrupt prelude, a machine
      that waits or is not RUNNING stands still; a listed pc pauses it; otherwise it executes the word at pc,
      which is in RAM, the interrupt-enable word, or the host's, or stops for want of one. */
  lemma CycleIs(s: Cpu, host: Host)
    requires s.Valid()
    ensures var c := Prelude(s.ctl);
      var p := s.(ctl := c);
      var word := if c.pc + 4 <= |s.mem| then Some(Word32(s.mem, c.pc))
                  else if c.pc == 0x9000_0000 then Some(c.ie) else host.load32(c.pc);
      Cycle(s, host)
        == if c.wfi || c.status != Running then p
           else if c.pc in Listed(c) then p.(ctl := c.(status := Paused))
           else match word
             case None => p.(ctl := c.(status := InvalidMemoryAccess))
             case Some(w) => Execute(p.(r := p.r[0 := 0]), w, host)
  {
    hide Prelude, Execute, Listed, BreakpointHit, Word32;
    HitIsListed(Prelude(s.ctl));
  }

  /** ecall hands registers and RAM to the hook, takes back what it answers, and goes on if still RUNNING. */
  lemma EcallTakesAnswer(s: Cpu, host: Host)
    requires s.Valid()
    ensures var a, t := host.ecall(s.r, s.mem), Execute(s, 0x0000_0073, host);
      && (|a.r| == 32 && |a.mem| == |s.mem| ==> t.r == a.r && t.mem == a.mem)
      && t.ctl == s.ctl.(status := a.status, pc := if a.status == Running then Wrap(s.ctl.pc + 4) else s.ctl.pc)
  {
    hide Opcode, Rd, Rs1, Rs2, Funct3, Funct7, ImmI, ImmU, LayoutI;
    EcallFields();
  }

  lemma EcallFields()
    ensures Opcode(0x73) == 0x73 && Funct3(0x73) == 0 && ImmI(0x73) == 0
  {
    hide *;
    FieldsAtLiterals(0x73);
    EcallNumbers();
  }

  lemma EcallNumbers()
    ensures 0x73 % 0x80 == 0x73 && 0x73 / 0x1000 % 8 == 0 && LayoutI(0x73) == 0
  {
  }

  // ----- statuses -----

  predicate Dead(c: Ctl) {
    c.status != Running && c.status != Paused
  }

  /** While the status is not RUNNING a cycle is its prelude only: registers, RAM and breakpoints stay. */
  lemma StoppedCycle(s: Cpu, host: Host)
    requires s.Valid() && s.ctl.status != Running
    ensures Cycle(s, host) == s.(ctl := Prelude(s.ctl))
    ensures var c := Cycle(s, host).ctl;
      c == s.ctl.(pc := c.pc, mepc := c.mepc, mcause := c.mcause, mstatus := c.mstatus,
                  mip := c.mip, ip := c.ip, wfi := c.wfi)
  {
  }

  /** What debugger writes and resets make of registers, pc and RAM. */
  function After(i: Image, e: Event): (j: Image)
    requires |i.r| == 32 && RamSize(i.mem)
    ensures |j.r| == 32 && |j.mem| == |i.mem|
  {
    match e
    case Write(image) => if |image.r| == 32 && |image.mem| == |i.mem| then image else i
    case Reset => Image(seq(32, _ => 0), 0, seq(RAM_IN_STRUCT, _ => 0) + i.mem[RAM_IN_STRUCT..])
    case _ => i
  }

  function AfterAll(i: Image, es: seq<Event>): (j: Image)
    requires |i.r| == 32 && RamSize(i.mem)
    ensures |j.r| == 32 && |j.mem| == |i.mem|
  {
    if es == [] then i else After(AfterAll(i, es[..|es| - 1]), es[|es| - 1])
  }

  /** No event of the run finds the machine RUNNING. */
  predicate Stopped(s: Cpu, es: seq<Event>)
    requires s.Valid()
  {
    forall k :: 0 <= k < |es| ==> Run(s, es[..k]).ctl.status != Running
  }

  /** A machine that is not RUNNING has the registers and RAM that debugger writes and resets gave it. */
  lemma {:induction false} StoppedFreezes(s: Cpu, es: seq<Event>)
    requires s.Valid() && Stopped(s, es)
    ensures var t, i := Run(s, es), AfterAll(ImageOf(s), es); t.r == i.r && t.mem == i.mem
  {
    hide Prelude, Stopped;
    if es != [] {
      var front, last := es[..|es| - 1], es[|es| - 1];
      StoppedPrefix(s, es);
      StoppedFreezes(s, front);
      if last.Tick? { StoppedCycle(Run(s, front), last.host); }
    }
  }

  lemma StoppedPrefix(s: Cpu, es: seq<Event>)
    requires s.Valid() && es != [] && Stopped(s, es)
    ensures Stopped(s, es[..|es| - 1]) && Run(s, es[..|es| - 1]).ctl.status != Running
  {
    hide Run;
    var front := es[..|es| - 1];
    forall k | 0 <= k < |front| ensures Run(s, front[..k]).ctl.status != Running {
      assert front[..k] == es[..k];
    }
  }

  /** The two events that leave HALTED, EBREAK and the INVALID statuses. */
  predicate Revives(e: Event) {
    e.Interrupt? || e.Reset?
  }

  predicate StatusKept(s: Cpu, es: seq<Event>)
    requires s.Valid()
  {
    forall k :: 0 <= k <= |es| ==> Run(s, es[..k]).ctl.status == s.ctl.status
  }

  lemma {:induction false} DeadStays(s: Cpu, es: seq<Event>)
    requires s.Valid() && Dead(s.ctl) && forall e :: e in es ==> !Revives(e)
    ensures Run(s, es).ctl.status == s.ctl.status
  {
    hide Prelude;
    if es != [] {
      var front, last := es[..|es| - 1], es[|es| - 1];
      assert last in es;
      DeadStays(s, front);
      if last.Tick? { StoppedCycle(Run(s, front), last.host); }
    }
  }

  /** HALTED, EBREAK and the two INVALID statuses are kept throughout a run exactly when it holds neither a
      debugger interrupt nor a reset; meanwhile only debugger writes change registers and RAM. */
  lemma DeadUntilRevived(s: Cpu, es: seq<Event>)
    requires s.Valid() && Dead(s.ctl)
    ensures StatusKept(s, es) <==> forall e :: e in es ==> !Revives(e)
    ensures StatusKept(s, es) ==> var t, i := Run(s, es), AfterAll(ImageOf(s), es); t.r == i.r && t.mem == i.mem
  {
    hide Run, AfterAll;
    if forall e :: e in es ==> !Revives(e) {
      forall k | 0 <= k <= |es| ensures Run(s, es[..k]).ctl.status == s.ctl.status { DeadStays(s, es[..k]); }
    }
    forall k | 0 <= k < |es| && Revives(es[k]) ensures Run(s, es[..k + 1]).ctl.status == Paused {
      RunStep(s, es, k);
    }
    if StatusKept(s, es) { StoppedFreezes(s, es); }
  }

  /** After either event, continue sets any dead machine running. */
  lemma RevivedRuns(s: Cpu, e: Event)
    requires s.Valid() && Dead(s.ctl) && Revives(e)
    ensures Run(s, [e, Continue]).ctl.status == Running
  {
    RunTwo(s, e, Continue);
  }

  lemma RunTwo(s: Cpu, e: Event, f: Event)
    requires s.Valid()
    ensures Run(s, [e, f]) == Handle(Handle(s, e), f)
  {
    hide Handle;
    assert [e, f][..1] == [e] && [e][..0] == [];
    assert Run(s, [e]) == Handle(Run(s, []), e);
  }

  // ----- wait for interrupt -----

  /** No tick of the run starts with a trap due. */
  predicate NoTrapIn(s: Cpu, es: seq<Event>)
    requires s.Valid()
  {
    forall k :: 0 <= k < |es| && es[k].Tick? ==> !TrapDue(Run(s, es[..k]).ctl)
  }

  lemma PrefixQuiet(s: Cpu, es: seq<Event>)
    requires s.Valid() && es != [] && NoTrapIn(s, es)
    ensures NoTrapIn(s, es[..|es| - 1])
    ensures es[|es| - 1].Tick? ==> !TrapDue(Run(s, es[..|es| - 1]).ctl)
  {
    hide Run, TrapDue;
    var front := es[..|es| - 1];
    forall k | 0 <= k < |front| && front[k].Tick? ensures !TrapDue(Run(s, front[..k]).ctl) {
      assert front[..k] == es[..k] && front[k] == es[k];
    }
  }

  /** The wait lasts through the whole run: wfi stays set, and no tick gets past it. */
  predicate Waits(s: Cpu, es: seq<Event>)
    requires s.Valid()
  {
    forall k :: 0 <= k <= |es| ==>
      var c := Run(s, es[..k]).ctl;
      c.wfi && (k < |es| && es[k].Tick? ==> Prelude(c).wfi)
  }

  lemma {:induction false} Waiting(s: Cpu, es: seq<Event>)
    requires s.Valid() && s.ctl.wfi && NoTrapIn(s, es) && forall e :: e in es ==> !e.Reset?
    ensures Run(s, es).ctl.wfi && ImageOf(Run(s, es)) == AfterAll(ImageOf(s), es)
  {
    hide Prelude, TrapDue, Trigger, SetBreakpoint, ClearBreakpoint, NoTrapIn;
    if es != [] {
      var front := es[..|es| - 1];
      assert es[|es| - 1] in es;
      PrefixQuiet(s, es);
      Waiting(s, front);
      EventControl(Run(s, front), es[|es| - 1]);
      if es[|es| - 1].Tick? { NoTrap(Run(s, front).ctl); }
    }
  }

  lemma QuietTake(s: Cpu, es: seq<Event>, k: nat)
    requires s.Valid() && k <= |es| && NoTrapIn(s, es)
    ensures NoTrapIn(s, es[..k])
  {
    hide Run, TrapDue;
    forall j | 0 <= j < k && es[..k][j].Tick? ensures !TrapDue(Run(s, es[..k][..j]).ctl) {
      assert es[..k][..j] == es[..j];
    }
  }

  lemma QuietWaits(s: Cpu, es: seq<Event>, k: nat)
    requires s.Valid() && s.ctl.wfi && k <= |es| && NoTrapIn(s, es) && forall e :: e in es ==> !e.Reset?
    ensures Run(s, es[..k]).ctl.wfi && (k < |es| && es[k].Tick? ==> Prelude(Run(s, es[..k]).ctl).wfi)
  {
    hide Run, TrapDue, Prelude, AfterAll, NoTrapIn, ImageOf;
    QuietTake(s, es, k);
    Waiting(s, es[..k]);
    if k < |es| && es[k].Tick? {
      QuietTick(s, es, k);
      NoTrap(Run(s, es[..k]).ctl);
    }
  }

  lemma WaitsAt(s: Cpu, es: seq<Event>, k: nat)
    requires s.Valid() && Waits(s, es) && k <= |es|
    ensures Run(s, es[..k]).ctl.wfi && (k < |es| && es[k].Tick? ==> Prelude(Run(s, es[..k]).ctl).wfi)
  {
    hide Run, Prelude;
  }

  lemma ResetEndsWait(s: Cpu)
    requires s.Valid()
    ensures !Handle(s, Reset).ctl.wfi
  {
  }

  lemma WaitsIsQuiet(s: Cpu, es: seq<Event>, k: nat)
    requires s.Valid() && Waits(s, es) && k < |es|
    ensures !es[k].Reset? && (es[k].Tick? ==> !TrapDue(Run(s, es[..k]).ctl))
  {
    hide Run, TrapDue, Prelude, Waits, Handle;
    RunStep(s, es, k);
    WaitsAt(s, es, k);
    WaitsAt(s, es, k + 1);
    if es[k].Reset? { ResetEndsWait(Run(s, es[..k])); }
    if TrapDue(Run(s, es[..k]).ctl) { TrapWakes(Run(s, es[..k])); }
  }

  /** The wait of wfi lasts exactly as long as no tick starts with a trap due and nothing resets the
      machine; until then only debugger writes change registers, pc and RAM. */
  lemma WfiFreezes(s: Cpu, es: seq<Event>)
    requires s.Valid() && s.ctl.wfi
    ensures Waits(s, es) <==> NoTrapIn(s, es) && forall e :: e in es ==> !e.Reset?
    ensures Waits(s, es) ==> ImageOf(Run(s, es)) == AfterAll(ImageOf(s), es)
  {
    hide Run, TrapDue, Prelude, AfterAll, NoTrapIn, ImageOf, Waits;
    if NoTrapIn(s, es) && forall e :: e in es ==> !e.Reset? {
      forall k: nat | k <= |es| { QuietWaits(s, es, k); }
      WaitsFrom(s, es);
    }
    if Waits(s, es) {
      forall k: nat | k < |es| { WaitsIsQuiet(s, es, k); }
      QuietFrom(s, es);
      Waiting(s, es);
    }
  }

  lemma WaitsFrom(s: Cpu, es: seq<Event>)
    requires s.Valid()
    requires forall k: nat :: k <= |es| ==>
               Run(s, es[..k]).ctl.wfi && (k < |es| && es[k].Tick? ==> Prelude(Run(s, es[..k]).ctl).wfi)
    ensures Waits(s, es)
  {
  }

  lemma QuietTick(s: Cpu, es: seq<Event>, k: nat)
    requires s.Valid() && NoTrapIn(s, es) && k < |es| && es[k].Tick?
    ensures !TrapDue(Run(s, es[..k]).ctl)
  {
  }

  lemma QuietFrom(s: Cpu, es: seq<Event>)
    requires s.Valid() && forall k :: 0 <= k < |es| && es[k].Tick? ==> !TrapDue(Run(s, es[..k]).ctl)
    ensures NoTrapIn(s, es)
  {
  }

  /** A tick with a trap due does wake the machine. */
  lemma TrapWakes(s: Cpu)
    requires s.Valid() && TrapDue(s.ctl)
    ensures !Prelude(s.ctl).wfi && Prelude(s.ctl).mepc == s.ctl.pc
  {
    hide Prelude;
    TrapTaken(s.ctl);
  }

  lemma {:induction false} MieStaysClear(s: Cpu, es: seq<Event>)
    requires s.Valid() && s.ctl.wfi && MIE !in Bits(s.ctl.mstatus) && forall e :: e in es ==> !e.Reset?
    ensures Run(s, es).ctl.wfi && Run(s, es).ctl.mstatus == s.ctl.mstatus
  {
    hide Prelude, Bits, Trigger, SetBreakpoint, ClearBreakpoint;
    if es != [] {
      var front := es[..|es| - 1];
      assert es[|es| - 1] in es;
      MieStaysClear(s, front);
      if es[|es| - 1].Tick? { NoTrap(Run(s, front).ctl); }
      EventControl(Run(s, front), es[|es| - 1]);
    }
  }

  /** With MIE clear a waiting machine waits exactly until a reset, whatever is triggered. */
  lemma WfiForever(s: Cpu, es: seq<Event>)
    requires s.Valid() && s.ctl.wfi && MIE !in Bits(s.ctl.mstatus)
    ensures Waits(s, es) <==> forall e :: e in es ==> !e.Reset?
  {
    hide Run, Bits, Waits;
    if forall e :: e in es ==> !e.Reset? {
      forall k | 0 <= k < |es| && es[k].Tick? ensures !TrapDue(Run(s, es[..k]).ctl) {
        MieStaysClear(s, es[..k]);
      }
      QuietFrom(s, es);
    }
    WfiFreezes(s, es);
  }

  /** Events other than ticks and resets leave wfi and the trap CSRs alone; registers, pc and RAM change
      only by a debugger write. */
  lemma EventControl(s: Cpu, e: Event)
    requires s.Valid()
    ensures var t := Handle(s, e);
      !e.Tick? && !e.Reset? ==>
        && ImageOf(t) == After(ImageOf(s), e)
        && t.ctl == s.ctl.(status := t.ctl.status, pc := t.ctl.pc, bpMask := t.ctl.bpMask, bp := t.ctl.bp,
                           mip := t.ctl.mip, ip := t.ctl.ip)
  {
    hide SetBit, Or, Shl, FreeSlot, SlotHolding, Prelude, Execute;
  }

  // ----- precise interrupts -----

  /** Every instruction the run executes is neither mret nor a write of mstatus or mepc, and nothing
      resets the machine. */
  predicate LeavesTrapState(s: Cpu, es: seq<Event>)
    requires s.Valid()
  {
    es == [] || (
      var front, last := es[..|es| - 1], es[|es| - 1];
      && LeavesTrapState(s, front)
      && !last.Reset?
      && (last.Tick? ==>
            match Fetched(Run(s, front), last.host)
            case None => true
            case Some(w) => !IsMret(w) && !WritesCsr(w, 0x300) && !WritesCsr(w, 0x341)))
  }

  /** The trap state between entry at s and the matching mret. */
  predicate InHandlerOf(s: Cpu, c: Ctl) {
    Bits(c.mstatus) == Bits(s.ctl.mstatus) + {MPIE} - {MIE} && c.mepc == s.ctl.pc
  }

  lemma InHandlerNoTrap(s: Cpu, c: Ctl)
    requires InHandlerOf(s, c)
    ensures !TrapDue(c)
  {
  }

  lemma EntryTick(s: Cpu, host: Host)
    requires s.Valid() && TrapDue(s.ctl)
    ensures InHandlerOf(s, Prelude(s.ctl))
  {
    hide Prelude, Bits;
    TrapTaken(s.ctl);
  }

  /** From trap entry on, until an mret, no second trap is taken and mepc is the interrupted pc. */
  lemma {:induction false} InsideHandler(s: Cpu, es: seq<Event>)
    requires s.Valid() && TrapDue(s.ctl) && es != [] && es[0].Tick? && LeavesTrapState(s, es)
    ensures InHandlerOf(s, Run(s, es).ctl) && !TrapDue(Run(s, es).ctl)
  {
    hide Prelude, Bits, Execute, TrapDue, Fetched;
    var front, last := es[..|es| - 1], es[|es| - 1];
    var u := Run(s, front);
    if front == [] {
      EntryTick(s, last.host);
    } else {
      assert front[0] == es[0];
      InsideHandler(s, front);
      NoTrap(u.ctl);
    }
    EventControl(u, last);
    if last.Tick? {
      CycleControl(u, last.host);
      var p := u.(ctl := Prelude(u.ctl));
      assert InHandlerOf(s, p.ctl);
      match Fetched(u, last.host)
      case None =>
      case Some(w) => ExecuteControl(SetReg(p, 0, 0), w, last.host);
    }
    InHandlerNoTrap(s, Run(s, es).ctl);
  }

  /** The matching mret resumes at the interrupted pc with MIE set and every other bit of mstatus,
      MPIE aside, as it was. */
  lemma HandlerReturns(s: Cpu, es: seq<Event>, host: Host)
    requires s.Valid() && TrapDue(s.ctl) && (es != [] ==> es[0].Tick?) && LeavesTrapState(s, es)
    requires Fetched(Run(s, es), host).Some? && IsMret(Fetched(Run(s, es), host).value)
    ensures var t := Run(s, es + [Tick(host)]);
      && t.ctl.pc == s.ctl.pc
      && Bits(t.ctl.mstatus) == Bits(s.ctl.mstatus) + {7}
      && 3 in Bits(t.ctl.mstatus)
  {
    hide Prelude, Bits, Execute, TrapDue, Fetched, SetBit, GetBit, IsMret;
    var u := Run(s, es);
    assert (es + [Tick(host)])[..|es|] == es;
    if es == [] {
      EntryTick(s, host);
    } else {
      InsideHandler(s, es);
      NoTrap(u.ctl);
    }
    CycleControl(u, host);
    var p := u.(ctl := Prelude(u.ctl));
    ExecuteControl(SetReg(p, 0, 0), Fetched(u, host).value, host);
    GetBitBits(p.ctl.mstatus, MPIE);
    SetBitBits(p.ctl.mstatus, MIE, GetBit(p.ctl.mstatus, MPIE));
    DueMeansEnabled(s.ctl);
  }

  lemma DueMeansEnabled(c: Ctl)
    requires TrapDue(c)
    ensures MIE in Bits(c.mstatus)
  {
  }

  // ----- accounting of external interrupts -----

  /** Only lines 0 to 3 are pending. */
  predicate LowLines(c: Ctl) {
    forall i :: i in Bits(c.ip) ==> i < 4
  }

  /** mip.MEIP says whether a line is pending. */
  predicate MeipAccurate(c: Ctl) {
    11 in Bits(c.mip) <==> Bits(c.ip) != {}
  }

  function RaisedBy(s: Cpu, e: Event): nat {
    if e.Irq? && e.line < 4 && e.line as nat !in Bits(s.ctl.ip) then 1 else 0
  }

  function ClaimedBy(s: Cpu, e: Event): nat {
    if e.Tick? && TrapDue(s.ctl) && OnlyKind(s.ctl, MEI) then 1 else 0
  }

  function Raised(s: Cpu, es: seq<Event>): nat
    requires s.Valid()
  {
    if es == [] then 0
    else Raised(s, es[..|es| - 1]) + RaisedBy(Run(s, es[..|es| - 1]), es[|es| - 1])
  }

  function Claimed(s: Cpu, es: seq<Event>): nat
    requires s.Valid()
  {
    if es == [] then 0
    else Claimed(s, es[..|es| - 1]) + ClaimedBy(Run(s, es[..|es| - 1]), es[|es| - 1])
  }

  /** The pending lines that a reset forgets. */
  function DroppedBy(s: Cpu, e: Event): nat {
    if e.Reset? then |Bits(s.ctl.ip)| else 0
  }

  function Dropped(s: Cpu, es: seq<Event>): nat
    requires s.Valid()
  {
    if es == [] then 0
    else Dropped(s, es[..|es| - 1]) + DroppedBy(Run(s, es[..|es| - 1]), es[|es| - 1])
  }

  lemma TriggerAccount(c: Ctl, line: u32)
    ensures var d := Trigger(c, line);
      && |Bits(d.ip)| == |Bits(c.ip)| + (if line < 4 && line as nat !in Bits(c.ip) then 1 else 0)
      && (LowLines(c) ==> LowLines(d)) && (MeipAccurate(c) ==> MeipAccurate(d))
  {
    hide Bits, Trigger;
    TriggerRaises(c, line);
    if line < 4 && line as nat in Bits(c.ip) { assert Bits(c.ip) + {line as nat} == Bits(c.ip); }
  }

  lemma PreludeAccount(c: Ctl)
    ensures var d := Prelude(c);
      && |Bits(d.ip)| + (if TrapDue(c) && OnlyKind(c, MEI) then 1 else 0) == |Bits(c.ip)|
      && (LowLines(c) ==> LowLines(d)) && (MeipAccurate(c) ==> MeipAccurate(d))
  {
    hide Prelude, ClaimIrq, Bits, TrapDue;
    if TrapDue(c) {
      TrapTaken(c);
      ClaimTakesLowest(c);
      if OnlyKind(c, MEI) {
        DueMeansSomething(c);
        assert MEI in Bits(c.mie) * Bits(c.mip);
      }
    } else {
      NoTrap(c);
    }
  }

  lemma DueMeansSomething(c: Ctl)
    requires TrapDue(c) && OnlyKind(c, MEI)
    ensures Bits(c.ie) * Bits(c.ip) != {}
  {
    assert MEI != MSI && MEI != MTI;
    assert MEI in Bits(c.mie) * Bits(c.mip);
  }

  /** Over every run the lines raised, less the lines claimed and the lines a reset forgot, are the lines
      pending, and no line above 3 ever is. */
  lemma {:induction false} PendingAccount(s: Cpu, es: seq<Event>)
    requires s.Valid()
    ensures var t := Run(s, es);
      && |Bits(t.ctl.ip)| + Claimed(s, es) + Dropped(s, es) == |Bits(s.ctl.ip)| + Raised(s, es)
      && (LowLines(s.ctl) ==> LowLines(t.ctl))
  {
    hide Prelude, Bits, Execute, TrapDue, Fetched, Trigger, SetBreakpoint, ClearBreakpoint, ClaimIrq, LowLines,
         MeipAccurate;
    if es != [] {
      var front, last := es[..|es| - 1], es[|es| - 1];
      PendingAccount(s, front);
      var u := Run(s, front);
      OtherEvents(u, last);
      match last
      case Tick(host) =>
        PreludeAccount(u.ctl);
        TickLines(u, host);
      case Irq(line) => TriggerAccount(u.ctl, line);
      case Reset => NoLines(ResetState(u.mem).ctl);
      case _ => SameLow(u.ctl, Handle(u, last).ctl);
    }
  }

  lemma SameLow(c: Ctl, d: Ctl)
    requires c.ip == d.ip
    ensures LowLines(c) ==> LowLines(d)
  {
  }

  lemma NoLines(c: Ctl)
    requires c.ip == 0 && c.mip == 0
    ensures Bits(c.ip) == {} && LowLines(c) && MeipAccurate(c)
  {
    hide Bits;
    BitsOfZero();
  }

  lemma TickLines(s: Cpu, host: Host)
    requires s.Valid()
    ensures Cycle(s, host).ctl.ip == Prelude(s.ctl).ip
    ensures LowLines(Prelude(s.ctl)) ==> LowLines(Cycle(s, host).ctl)
  {
    hide Prelude, Execute, Fetched, WritesCsr, Bits;
    CycleControl(s, host);
    match Fetched(s, host)
    case None =>
    case Some(w) => ExecuteControl(SetReg(s.(ctl := Prelude(s.ctl)), 0, 0), w, host);
  }

  // ----- when MEIP is right -----

  /** The value that a CSR instruction writes, on the state it executes in. */
  function Written(s: Cpu, w: u32): Option<u32>
    requires s.Valid()
  {
    CsrWritten(Funct3(w), ReadCsr(s.ctl, ImmI(w)), s.r[Rs1(w)], Rs1(w))
  }

  lemma MipAfterWrite(s: Cpu, w: u32, host: Host)
    requires s.Valid() && WritesCsr(w, 0x344)
    ensures Execute(s, w, host).ctl.mip == match Written(s, w) case Some(v) => v case None => s.ctl.mip
  {
    hide And, Or32, Not32, Opcode, Funct3, ImmI, Rd, Rs1;
    SelectsWrite(w);
  }

  lemma SelectsWrite(w: u32)
    requires Funct3(w) != 0
    ensures And(Funct3(w), 3) != 0 <==> Funct3(w) != 4
  {
    hide And, Pow2, Opcode, Rd, Rs1, Rs2, Funct3, Funct7, ImmI, ImmU;
    Pow2Values();
    FieldsAtLiterals(w);
    AndLowMask(Funct3(w), 2);
  }

  /** The machine on which the tick executes the word it fetches. */
  function Executing(s: Cpu): (t: Cpu)
    requires s.Valid()
    ensures t.Valid()
  {
    SetReg(s.(ctl := Prelude(s.ctl)), 0, 0)
  }

  /** If the tick writes mip, the value written has bit 11 set exactly if a line is still pending. */
  predicate MipWriteFits(s: Cpu, e: Event)
    requires s.Valid()
  {
    e.Tick? && Fetched(s, e.host).Some? && WritesCsr(Fetched(s, e.host).value, 0x344) ==>
      var v := Written(Executing(s), Fetched(s, e.host).value);
      v.Some? ==> (11 in Bits(v.value) <==> Bits(Prelude(s.ctl).ip) != {})
  }

  lemma EventKeepsMeip(s: Cpu, e: Event)
    requires s.Valid() && MeipAccurate(s.ctl)
    ensures MeipAccurate(Handle(s, e).ctl) <==> MipWriteFits(s, e)
  {
    hide Prelude, Bits, Execute, Fetched, Trigger, WritesCsr, SetBreakpoint, ClearBreakpoint, Written;
    OtherEvents(s, e);
    match e
    case Tick(host) =>
      PreludeAccount(s.ctl);
      CycleControl(s, host);
      match Fetched(s, host) {
        case None =>
        case Some(w) =>
          ExecuteControl(Executing(s), w, host);
          if WritesCsr(w, 0x344) { MipAfterWrite(Executing(s), w, host); }
      }
    case Irq(line) => TriggerAccount(s.ctl, line);
    case Reset => NoLines(ResetState(s.mem).ctl);
    case _ =>
  }

  predicate MipWritesFit(s: Cpu, es: seq<Event>)
    requires s.Valid()
  {
    forall k :: 0 <= k < |es| ==> MipWriteFits(Run(s, es[..k]), es[k])
  }

  predicate MeipKept(s: Cpu, es: seq<Event>)
    requires s.Valid()
  {
    forall k :: 0 <= k <= |es| ==> MeipAccurate(Run(s, es[..k]).ctl)
  }

  lemma {:induction false} MeipUpTo(s: Cpu, es: seq<Event>, k: nat)
    requires s.Valid() && MeipAccurate(s.ctl) && MipWritesFit(s, es) && k <= |es|
    ensures MeipAccurate(Run(s, es[..k]).ctl)
  {
    hide MipWriteFits, MeipAccurate, Run;
    if k == 0 {
      RunNothing(s);
    } else {
      MeipUpTo(s, es, k - 1);
      RunStep(s, es, k - 1);
      EventKeepsMeip(Run(s, es[..k - 1]), es[k - 1]);
    }
  }

  lemma RunNothing(s: Cpu)
    requires s.Valid()
    ensures Run(s, []) == s
  {
  }

  /** From a state in which MEIP says whether a line is pending, it does so throughout a run exactly when
      every value written to mip does. */
  lemma MeipExact(s: Cpu, es: seq<Event>)
    requires s.Valid() && MeipAccurate(s.ctl)
    ensures MeipKept(s, es) <==> MipWritesFit(s, es)
  {
    hide MipWriteFits, MeipAccurate, Run;
    if MipWritesFit(s, es) {
      forall k: nat | k <= |es| ensures MeipAccurate(Run(s, es[..k]).ctl) { MeipUpTo(s, es, k); }
    }
    if MeipKept(s, es) {
      forall k: nat | k < |es| ensures MipWriteFits(Run(s, es[..k]), es[k]) {
        RunStep(s, es, k);
        EventKeepsMeip(Run(s, es[..k]), es[k]);
        assert MeipAccurate(Run(s, es[..k + 1]).ctl);
      }
    }
  }

  // ----- stranded lines -----

  /** The event raises no line, is no reset, and writes no mip with MEIP set. */
  predicate LeavesMeipClear(s: Cpu, e: Event)
    requires s.Valid()
  {
    match e
    case Tick(host) =>
      Fetched(s, host).Some? && WritesCsr(Fetched(s, host).value, 0x344) ==>
        var v := Written(Executing(s), Fetched(s, host).value);
        v.Some? ==> MEI !in Bits(v.value)
    case Irq(line) => line >= 4
    case Reset => false
    case _ => true
  }

  predicate NeverSetsMeip(s: Cpu, es: seq<Event>)
    requires s.Valid()
  {
    es == [] || (NeverSetsMeip(s, es[..|es| - 1]) && LeavesMeipClear(Run(s, es[..|es| - 1]), es[|es| - 1]))
  }

  /** With MEIP clear, whatever lines are pending stay so: none is claimed until a line is raised, MEIP is
      written, or the machine is reset. */
  lemma {:induction false} StrandedUntilRaised(s: Cpu, es: seq<Event>)
    requires s.Valid() && MEI !in Bits(s.ctl.mip) && NeverSetsMeip(s, es)
    ensures var t := Run(s, es); t.ctl.ip == s.ctl.ip && MEI !in Bits(t.ctl.mip) && Claimed(s, es) == 0
  {
    hide Prelude, Bits, TrapDue, OnlyKind, LeavesMeipClear, Handle;
    if es != [] {
      StrandedUntilRaised(s, es[..|es| - 1]);
      StrandedStep(Run(s, es[..|es| - 1]), es[|es| - 1]);
    }
  }

  lemma StrandedStep(s: Cpu, e: Event)
    requires s.Valid() && MEI !in Bits(s.ctl.mip) && LeavesMeipClear(s, e)
    ensures var d := Handle(s, e).ctl; d.ip == s.ctl.ip && MEI !in Bits(d.mip) && ClaimedBy(s, e) == 0
  {
    hide Prelude, Bits, TrapDue, Execute, Fetched, WritesCsr, Written, SetBreakpoint, ClearBreakpoint;
    assert OnlyKind(s.ctl, MEI) ==> MEI in Bits(s.ctl.mie) * Bits(s.ctl.mip);
    OtherEvents(s, e);
    if e.Tick? {
      if TrapDue(s.ctl) { TrapTaken(s.ctl); } else { NoTrap(s.ctl); }
      CycleControl(s, e.host);
      match Fetched(s, e.host)
      case None =>
      case Some(w) =>
        ExecuteControl(Executing(s), w, e.host);
        if WritesCsr(w, 0x344) { MipAfterWrite(Executing(s), w, e.host); }
    }
  }

  lemma OtherEvents(s: Cpu, e: Event)
    requires s.Valid()
    ensures !e.Tick? && !e.Irq? && !e.Reset? ==>
              Handle(s, e).ctl.ip == s.ctl.ip && Handle(s, e).ctl.mip == s.ctl.mip
  {
    hide Prelude, Execute, Trigger, FreeSlot, SlotHolding, MarkSlot, ClearBit;
  }

  // ----- breakpoints -----

  /** Eight breakpoints at most, as a multiset. */
  function ListAfter(m: multiset<u32>, e: Event): multiset<u32> {
    match e
    case SetBp(addr) => if |m| < 8 then m + multiset{addr} else m
    case ClearBp(addr) => m - multiset{addr}
    case ClearAllBps => multiset{}
    case Reset => multiset{}
    case _ => m
  }

  function ListAfterAll(m: multiset<u32>, es: seq<Event>): multiset<u32> {
    if es == [] then m else ListAfter(ListAfterAll(m, es[..|es| - 1]), es[|es| - 1])
  }

  /** Over every run the slots refine the multiset; unused slots that hold 0 keep doing so. */
  lemma {:induction false} SlotsRefineList(s: Cpu, es: seq<Event>)
    requires s.Valid()
    ensures Listed(Run(s, es).ctl) == ListAfterAll(Listed(s.ctl), es)
    ensures Tidy(s.ctl) ==> Tidy(Run(s, es).ctl)
  {
    hide Tidy, Listed, Handle;
    if es != [] {
      SlotsRefineList(s, es[..|es| - 1]);
      EventRefinesList(Run(s, es[..|es| - 1]), es[|es| - 1]);
    }
  }

  lemma ListedIgnores(c: Ctl, d: Ctl)
    requires |c.bp| == 8 && d.bp == c.bp && d.bpMask == c.bpMask
    ensures Listed(c) == Listed(d) && (Tidy(c) ==> Tidy(d))
  {
  }

  lemma EventRefinesList(u: Cpu, last: Event)
    requires u.Valid()
    ensures Listed(Handle(u, last).ctl) == ListAfter(Listed(u.ctl), last)
    ensures Tidy(u.ctl) ==> Tidy(Handle(u, last).ctl)
  {
    hide Cycle, Trigger, SetBreakpoint, ClearBreakpoint, ClearAllBreakpoints, ResetState, Listed, Tidy;
    match last
    case Tick(host) =>
      TickKeepsSlots(u, host);
      ListedIgnores(u.ctl, Cycle(u, host).ctl);
    case Irq(line) =>
      TriggerKeepsSlots(u.ctl, line);
      ListedIgnores(u.ctl, Trigger(u.ctl, line));
    case SetBp(addr) => SetAddsOne(u.ctl, addr);
    case ClearBp(addr) => ClearRemovesOne(u.ctl, addr);
    case ClearAllBps => ClearAllEmpties(u.ctl);
    case Reset => ResetEmpties(u);
    case Write(image) => ListedIgnores(u.ctl, Handle(u, last).ctl);
    case Continue => ListedIgnores(u.ctl, Handle(u, last).ctl);
    case Interrupt => ListedIgnores(u.ctl, Handle(u, last).ctl);
  }

  lemma ResetEmpties(s: Cpu)
    requires s.Valid()
    ensures var c := Handle(s, Reset).ctl; Tidy(c) && Listed(c) == multiset{}
  {
    hide Bits;
    NothingHeld(ResetControl(seq(8, _ => 0)).bp, 0);
  }

  lemma TickKeepsSlots(s: Cpu, host: Host)
    requires s.Valid()
    ensures var c := Cycle(s, host).ctl; c.bp == s.ctl.bp && c.bpMask == s.ctl.bpMask
  {
    hide Execute, Fetched, TrapDue, Prelude;
    PreludeKeepsSlots(s.ctl);
    CycleControl(s, host);
    match Fetched(s, host)
    case None =>
    case Some(w) => ExecuteControl(SetReg(s.(ctl := Prelude(s.ctl)), 0, 0), w, host);
  }

  lemma PreludeKeepsSlots(c: Ctl)
    ensures Prelude(c).bp == c.bp && Prelude(c).bpMask == c.bpMask
  {
  }

  lemma TriggerKeepsSlots(c: Ctl, line: u32)
    ensures Trigger(c, line).bp == c.bp && Trigger(c, line).bpMask == c.bpMask
  {
  }

  /** No instruction is ever fetched from a listed address. */
  lemma NeverFetchesListed(s: Cpu, es: seq<Event>, host: Host)
    requires s.Valid()
    ensures var u := Run(s, es);
      Fetched(u, host).Some? ==> Prelude(u.ctl).pc !in ListAfterAll(Listed(s.ctl), es)
  {
    hide Prelude, BreakpointHit, Load32;
    var u := Run(s, es);
    SlotsRefineList(s, es);
    PreludeKeepsSlots(u.ctl);
    HitIsListed(Prelude(u.ctl));
  }

  /** Stopped at a listed address, resuming only stops again: the program makes no progress. */
  lemma ResumingPausesAgain(s: Cpu, host: Host)
    requires s.Valid() && s.ctl.status == Paused && !s.ctl.wfi && s.ctl.pc in Listed(s.ctl) && !TrapDue(s.ctl)
    ensures Run(s, [Continue, Tick(host)]) == s
  {
    hide Prelude, BreakpointHit, Listed, TrapDue, Run, Execute, Load32;
    var t := s.(ctl := Resume(s.ctl));
    RunTwo(s, Continue, Tick(host));
    DueIgnoresStatus(s.ctl, t.ctl);
    NoTrap(t.ctl);
    ListedIgnores(s.ctl, t.ctl);
    HitIsListed(t.ctl);
  }

  lemma DueIgnoresStatus(c: Ctl, d: Ctl)
    requires d == c.(status := d.status)
    ensures TrapDue(c) <==> TrapDue(d)
  {
  }

  // ----- from reset -----

  /** rv32_new, field by field: paused, everything zero, the first four bytes of RAM cleared and the others kept. */
  lemma ResetIsZero(ram: seq<u8>)
    requires RamSize(ram)
    ensures var s := ResetState(ram);
      && s.ctl.status == Paused && !s.ctl.wfi && s.ctl.pc == 0
      && s.r == seq(32, _ => 0)
      && s.ctl.mstatus == 0 && s.ctl.mie == 0 && s.ctl.mip == 0
      && s.ctl.mtvec == 0 && s.ctl.mepc == 0 && s.ctl.mcause == 0
      && s.ctl.ie == 0 && s.ctl.ip == 0
      && s.ctl.bpMask == 0 && s.ctl.bp == seq(8, _ => 0) && Listed(s.ctl) == multiset{}
      && s.mem == [0, 0, 0, 0] + ram[4..]
  {
    hide Bits;
    NothingHeld(ResetState(ram).ctl.bp, 0);
  }

  /** A program loaded after reset starts at address 0: continue, and the first cycle executes the word there. */
  lemma FirstCycle(ram: seq<u8>, program: seq<u8>, host: Host)
    requires RamSize(ram) && |program| == |ram|
    ensures var s := ResetState(ram).(mem := program);
      Run(s, [Continue, Tick(host)])
        == Execute(s.(ctl := s.ctl.(status := Running)), Word32(program, 0), host)
  {
    hide Prelude, Execute, Listed, Run, Cycle, TrapDue, Word32, Bits;
    var s := ResetState(ram).(mem := program);
    var t := s.(ctl := s.ctl.(status := Running));
    ResetIsZero(ram);
    RunTwo(s, Continue, Tick(host));
    NoTrapFromZero(t.ctl);
    ListedIgnores(s.ctl, t.ctl);
    CycleIs(t, host);
    assert t.r[0 := 0] == t.r;
  }

  lemma NoTrapFromZero(c: Ctl)
    requires c.mstatus == 0
    ensures Prelude(c) == c
  {
    hide Prelude, Bits;
    BitsOfZero();
    NoTrap(c);
  }

  /** Every run from rv32_new: the accounts start at zero, only lines 0 to 3 are pending, and MEIP is right
      throughout exactly when every value written to mip is. */
  lemma FromReset(ram: seq<u8>, es: seq<Event>)
    requires RamSize(ram)
    ensures var s, t := ResetState(ram), Run(ResetState(ram), es);
      && |Bits(t.ctl.ip)| + Claimed(s, es) + Dropped(s, es) == Raised(s, es)
      && LowLines(t.ctl) && (MeipKept(s, es) <==> MipWritesFit(s, es))
      && Tidy(t.ctl) && Listed(t.ctl) == ListAfterAll(multiset{}, es)
  {
    hide Bits, Run, Claimed, Raised, Dropped, MipWritesFit, MeipKept, ListAfterAll, LowLines, MeipAccurate;
    var s := ResetState(ram);
    NoLines(s.ctl);
    NothingHeld(s.ctl.bp, 0);
    PendingAccount(s, es);
    MeipExact(s, es);
    SlotsRefineList(s, es);
  }
}
