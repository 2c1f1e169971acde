/**
 Interrupt delivery over consecutive handler runs: the handlers that the core enters
 one after the other are those of the lines that draining the controller yields.
 */
module Delivery {
  import opened Words
  import opened Immediates
  import opened Memory
  import opened Control
  import opened Interrupts
  import opened Core
  import opened CoreRuns

  /** One handler: everything from trap entry on, and the tick that executes its mret. */
  datatype HandlerRun = HandlerRun(body: seq<Event>, host: Host) {
    function Events(): (es: seq<Event>)
      ensures |es| == |body| + 1
    {
      body + [Tick(host)]
    }
  }

  /** The event raises no line, leaves the enable word of the controller, and is no reset. */
  predicate Undisturbed(s: Cpu, e: Event)
    requires s.Valid()
  {
    match e
    case Tick(host) => Cycle(s, host).ctl.ie == s.ctl.ie
    case Irq(line) => line >= 4
    case Reset => false
    case _ => true
  }

  predicate Quiet(s: Cpu, es: seq<Event>)
    requires s.Valid()
  {
    es == [] || (Quiet(s, es[..|es| - 1]) && Undisturbed(Run(s, es[..|es| - 1]), es[|es| - 1]))
  }

  /** An external interrupt is due. */
  predicate ExternalDue(c: Ctl) {
    TrapDue(c) && OnlyKind(c, MEI)
  }

  /** The run is a whole handler of an external interrupt taken at s.  It may write mie and mip. */
  predicate Serves(s: Cpu, run: HandlerRun)
    requires s.Valid()
  {
    && ExternalDue(s.ctl)
    && (run.body != [] ==> run.body[0].Tick?)
    && LeavesTrapState(s, run.body) && Quiet(s, run.Events())
    && var last := Fetched(Run(s, run.body), run.host);
    && last.Some? && IsMret(last.value)
  }

  // ----- one handler -----

  /** What draining depends on: the two words of the controller. */
  predicate SameLines(c: Ctl, d: Ctl) {
    d.ip == c.ip && d.ie == c.ie
  }

  lemma UndisturbedLines(s: Cpu, e: Event)
    requires s.Valid() && Undisturbed(s, e)
    ensures SameLines(if e.Tick? then Prelude(s.ctl) else s.ctl, Handle(s, e).ctl)
  {
    hide Prelude, Execute, Fetched, SetBreakpoint, ClearBreakpoint, WritesCsr;
    if e.Tick? {
      var p := s.(ctl := Prelude(s.ctl));
      CycleControl(s, e.host);
      PreludeEnables(s.ctl);
      match Fetched(s, e.host)
      case None =>
      case Some(w) => ExecuteControl(SetReg(p, 0, 0), w, e.host);
    } else {
      OtherLines(s, e);
    }
  }

  lemma PreludeEnables(c: Ctl)
    ensures Prelude(c).ie == c.ie
  {
    hide TrapDue, Prelude;
    if TrapDue(c) { TrapTaken(c); } else { NoTrap(c); }
  }

  lemma OtherLines(s: Cpu, e: Event)
    requires s.Valid() && Undisturbed(s, e) && !e.Tick?
    ensures SameLines(s.ctl, Handle(s, e).ctl)
  {
    hide Prelude, Execute, FreeSlot, SlotHolding, MarkSlot, ClearBit;
  }

  /** From trap entry to any point of the handler, the lines are those that the claim left. */
  lemma {:induction false} InService(s: Cpu, es: seq<Event>)
    requires s.Valid() && ExternalDue(s.ctl)
    requires es != [] && es[0].Tick? && LeavesTrapState(s, es[..|es| - 1]) && Quiet(s, es)
    ensures SameLines(ClaimIrq(s.ctl).0, Run(s, es).ctl)
  {
    hide Prelude, TrapDue, OnlyKind, ClaimIrq, Undisturbed, Handle, LeavesTrapState;
    var front, last := es[..|es| - 1], es[|es| - 1];
    UndisturbedLines(Run(s, front), last);
    ClaimTakesLowest(s.ctl);
    if front == [] {
      TrapTaken(s.ctl);
    } else {
      assert front[0] == es[0];
      LeavesPrefix(s, front);
      InService(s, front);
      InsideHandler(s, front);
      NoTrap(Run(s, front).ctl);
    }
  }

  lemma LeavesPrefix(s: Cpu, es: seq<Event>)
    requires s.Valid() && es != [] && LeavesTrapState(s, es)
    ensures LeavesTrapState(s, es[..|es| - 1])
  {
  }

  lemma Served(s: Cpu, run: HandlerRun)
    requires s.Valid() && Serves(s, run)
    ensures var t := Run(s, run.Events());
      t.ctl.pc == s.ctl.pc && MIE in Bits(t.ctl.mstatus) && SameLines(ClaimIrq(s.ctl).0, t.ctl)
  {
    hide TrapDue, OnlyKind, ClaimIrq, LeavesTrapState, Quiet, Run, Fetched, IsMret, Bits, SameLines;
    var es := run.Events();
    assert es[..|es| - 1] == run.body;
    assert es[0].Tick?;
    HandlerReturns(s, run.body, run.host);
    InService(s, es);
  }

  // ----- consecutive handlers -----

  lemma DueIffEnabled(c: Ctl)
    requires MIE in Bits(c.mstatus)
    ensures ExternalDue(c) <==> OnlyKind(c, MEI) && Bits(c.ie) * Bits(c.ip) != {}
  {
    hide Bits;
    assert MEI != MSI && MEI != MTI && MEI in {MEI};
  }

  /** The line that the trap due at s delivers, as its handler reads it from mcause. */
  function Line(s: Cpu): u32
    requires ExternalDue(s.ctl)
  {
    LineIsClaimed(s.ctl);
    Prelude(s.ctl).mcause - 0x8000_0010
  }

  lemma LineIsClaimed(c: Ctl)
    requires ExternalDue(c)
    ensures ClaimIrq(c).1.Some? && Prelude(c).mcause == 0x8000_0010 + ClaimIrq(c).1.value
  {
    hide Prelude, ClaimIrq, Bits;
    assert MEI != MSI && MEI != MTI && MEI in {MEI};
    TrapTaken(c);
    ClaimTakesLowest(c);
  }

  /** Each run serves the trap that is due where the one before it returned. */
  predicate AllServe(s: Cpu, runs: seq<HandlerRun>)
    requires s.Valid()
    decreases |runs|
  {
    runs == [] || (Serves(s, runs[0]) && AllServe(Run(s, runs[0].Events()), runs[1..]))
  }

  function AfterRuns(s: Cpu, runs: seq<HandlerRun>): (t: Cpu)
    requires s.Valid()
    ensures t.Valid()
    decreases |runs|
  {
    if runs == [] then s else AfterRuns(Run(s, runs[0].Events()), runs[1..])
  }

  function Lines(s: Cpu, runs: seq<HandlerRun>): (l: seq<u32>)
    requires s.Valid() && AllServe(s, runs)
    ensures |l| == |runs|
    decreases |runs|
  {
    if runs == [] then [] else [Line(s)] + Lines(Run(s, runs[0].Events()), runs[1..])
  }

  /** Draining looks at the two words of the controller only. */
  lemma {:induction false} DrainDepends(c: Ctl, d: Ctl)
    requires d.ip == c.ip && d.ie == c.ie
    ensures Drain(c).1 == Drain(d).1
    decreases |Bits(c.ip)|
  {
    hide Bits, LowestSet, ClearBit, And;
    var (c1, r) := ClaimIrq(c);
    var (d1, q) := ClaimIrq(d);
    if r.Some? {
      ClaimTakesLowest(c);
      SubsetSize(Bits(c1.ip), Bits(c.ip));
      DrainDepends(c1, d1);
    }
  }

  lemma NothingToDrain(c: Ctl)
    ensures Drain(c).1 == [] <==> Bits(c.ie) * Bits(c.ip) == {}
  {
    hide Bits, ClaimIrq;
    ClaimTakesLowest(c);
  }

  lemma DrainFirst(c: Ctl)
    requires ClaimIrq(c).1.Some?
    ensures Drain(c).1 == [ClaimIrq(c).1.value] + Drain(ClaimIrq(c).0).1
  {
    hide Bits, ClaimIrq;
  }

  /** One handler: it delivers the first line of the drain, and leaves the rest to deliver. */
  lemma ServedIsDrained(s: Cpu, run: HandlerRun)
    requires s.Valid() && Serves(s, run)
    ensures var t := Run(s, run.Events());
      && t.ctl.pc == s.ctl.pc && MIE in Bits(t.ctl.mstatus) && t.ctl.ie == s.ctl.ie
      && Drain(s.ctl).1 == [Line(s)] + Drain(t.ctl).1
  {
    hide Bits, ClaimIrq, Drain, Run, Prelude, TrapDue, LeavesTrapState, Quiet;
    var t := Run(s, run.Events());
    Served(s, run);
    LineIsClaimed(s.ctl);
    ClaimTakesLowest(s.ctl);
    DrainFirst(s.ctl);
    DrainDepends(ClaimIrq(s.ctl).0, t.ctl);
  }

  /** Over any number of consecutive handler runs with nothing raised meanwhile, whatever the handlers write
      to mie and mip: the lines delivered are a prefix of what draining the controller yields, each handler
      returns to the interrupted pc, and a further one is due exactly while lines are left to drain and
      the external kind alone is enabled and pending. */
  lemma {:induction false} HandlersDrain(s: Cpu, runs: seq<HandlerRun>)
    requires s.Valid() && MIE in Bits(s.ctl.mstatus) && AllServe(s, runs)
    ensures var t := AfterRuns(s, runs);
      && t.ctl.pc == s.ctl.pc && MIE in Bits(t.ctl.mstatus) && t.ctl.ie == s.ctl.ie
      && Drain(s.ctl).1 == Lines(s, runs) + Drain(t.ctl).1
      && (ExternalDue(t.ctl) <==> OnlyKind(t.ctl, MEI) && |runs| < |Drain(s.ctl).1|)
    decreases |runs|
  {
    hide Bits, Drain, Run, Prelude, TrapDue, Serves, ExternalDue, OnlyKind, Line;
    var t := AfterRuns(s, runs);
    if runs != [] {
      ServedIsDrained(s, runs[0]);
      HandlersDrain(Run(s, runs[0].Events()), runs[1..]);
    }
    DueIffEnabled(t.ctl);
    NothingToDrain(t.ctl);
  }

  /** The pending line lies at or below an enabled one, and its handler has not run. */
  predicate Undelivered(c: Ctl, l: seq<u32>, i: nat) {
    i in Bits(c.ip) && Reached(c, i) && i !in l
  }

  /** So handlers run in strictly ascending order of their lines, each line once, only for lines up to
      the highest enabled one, and each returns to the interrupted program; another one is due exactly
      while some of these lines is undelivered and the external kind alone is enabled and pending. */
  lemma DeliveredInOrder(s: Cpu, runs: seq<HandlerRun>)
    requires s.Valid() && MIE in Bits(s.ctl.mstatus) && AllServe(s, runs)
    ensures var l, t := Lines(s, runs), AfterRuns(s, runs);
      && (forall i, j :: 0 <= i < j < |l| ==> l[i] < l[j])
      && (forall i: nat :: i in l ==> i in Bits(s.ctl.ip) && Reached(s.ctl, i))
      && t.ctl.pc == s.ctl.pc
      && (ExternalDue(t.ctl) <==> OnlyKind(t.ctl, MEI) && exists i :: Undelivered(s.ctl, l, i))
  {
    hide Bits, Drain, Run, ExternalDue, OnlyKind, AllServe, Reached, AfterRuns, Lines;
    HandlersDrain(s, runs);
    DrainIsExact(s.ctl);
    var l, all, rest := Lines(s, runs), Drain(s.ctl).1, Drain(AfterRuns(s, runs).ctl).1;
    assert all == l + rest;
    forall i, j | 0 <= i < j < |l| ensures l[i] < l[j] {
      assert all[i] == l[i] && all[j] == l[j];
    }
    forall i: nat | i in l ensures i in all {
      var k :| 0 <= k < |l| && l[k] == i;
      assert all[k] == i;
    }
    if rest == [] {
      assert all == l;
    } else {
      var i: nat := rest[0];
      assert all[|l|] == i;
      assert i !in l by {
        forall k | 0 <= k < |l| ensures l[k] != i { assert all[k] == l[k]; }
      }
      assert i in all;
      assert Undelivered(s.ctl, l, i);
    }
  }

  // ----- handlers that keep MEIP right -----

  /** Every value that the handlers write to mip says whether a line is pending. */
  predicate AllFit(s: Cpu, runs: seq<HandlerRun>)
    requires s.Valid()
    decreases |runs|
  {
    runs == [] || (MipWritesFit(s, runs[0].Events()) && AllFit(Run(s, runs[0].Events()), runs[1..]))
  }

  lemma {:induction false} MeipAfterRuns(s: Cpu, runs: seq<HandlerRun>)
    requires s.Valid() && MeipAccurate(s.ctl) && AllFit(s, runs)
    ensures MeipAccurate(AfterRuns(s, runs).ctl)
    decreases |runs|
  {
    hide MipWritesFit, MeipAccurate, Run;
    if runs != [] {
      var es := runs[0].Events();
      MeipUpTo(s, es, |es|);
      assert es[..|es|] == es;
      MeipAfterRuns(Run(s, es), runs[1..]);
    }
  }

  /** With such handlers, and the external kind enabled and no other one pending, the core goes back to the
      interrupted program exactly when every line up to the highest enabled one has been delivered. */
  lemma DeliversAll(s: Cpu, runs: seq<HandlerRun>)
    requires s.Valid() && MIE in Bits(s.ctl.mstatus) && AllServe(s, runs)
    requires MeipAccurate(s.ctl) && AllFit(s, runs)
    requires var t := AfterRuns(s, runs); MEI in Bits(t.ctl.mie) && Bits(t.ctl.mie) * Bits(t.ctl.mip) <= {MEI}
    ensures TrapDue(AfterRuns(s, runs).ctl) <==> exists i :: Undelivered(s.ctl, Lines(s, runs), i)
  {
    hide Bits, AllServe, AllFit, Drain, Lines, AfterRuns, Undelivered;
    var c := AfterRuns(s, runs).ctl;
    DeliveredInOrder(s, runs);
    HandlersDrain(s, runs);
    MeipAfterRuns(s, runs);
    NothingToDrain(c);
    NoOtherKind(c);
    if i :| Undelivered(s.ctl, Lines(s, runs), i) { LeftToDrain(s, runs, i); }
  }

  lemma LeftToDrain(s: Cpu, runs: seq<HandlerRun>, i: nat)
    requires s.Valid() && MIE in Bits(s.ctl.mstatus) && AllServe(s, runs) && Undelivered(s.ctl, Lines(s, runs), i)
    ensures Drain(AfterRuns(s, runs).ctl).1 != []
  {
    hide Bits, AllServe, Drain, Lines, AfterRuns, Reached;
    HandlersDrain(s, runs);
    DrainIsExact(s.ctl);
    var l, rest := Lines(s, runs), Drain(AfterRuns(s, runs).ctl).1;
    assert i in l + rest;
  }

  lemma NoOtherKind(c: Ctl)
    requires Bits(c.mie) * Bits(c.mip) <= {MEI}
    ensures TrapDue(c) ==> OnlyKind(c, MEI)
  {
    hide Bits;
    assert MSI !in {MEI} && MTI !in {MEI};
    assert OnlyKind(c, MSI) ==> MSI in Bits(c.mie) * Bits(c.mip);
    assert OnlyKind(c, MTI) ==> MTI in Bits(c.mie) * Bits(c.mip);
  }

  // ----- handlers that clear MEIP -----

  /** A handler that returns with MEIP clear strands the lines still pending: none is delivered until a line
      is raised, MEIP is written, or the machine is reset. */
  lemma HandlerStrands(s: Cpu, run: HandlerRun, es: seq<Event>)
    requires s.Valid() && Serves(s, run)
    requires var t := Run(s, run.Events()); MEI !in Bits(t.ctl.mip) && NeverSetsMeip(t, es)
    ensures var t := Run(s, run.Events()); var u := Run(t, es);
      && Bits(u.ctl.ip) == Bits(s.ctl.ip) - {Line(s) as nat}
      && Claimed(t, es) == 0 && !ExternalDue(u.ctl)
  {
    hide Bits, ClaimIrq, Run, Prelude, TrapDue, LeavesTrapState, Quiet, NeverSetsMeip;
    var t := Run(s, run.Events());
    Served(s, run);
    LineIsClaimed(s.ctl);
    ClaimTakesLowest(s.ctl);
    StrandedUntilRaised(t, es);
    var c := Run(t, es).ctl;
    assert OnlyKind(c, MEI) ==> MEI in Bits(c.mie) * Bits(c.mip);
  }

  /** `csrrc x0, mip, t0` and `mret`. */
  const CLEAR_WORD: u32 := 0x3442_b073
  const MRET_WORD: u32 := 0x3020_0073

  /** RAM at mtvec holds these two, t0 holds bit 11, and nothing keeps the core from running them. */
  predicate ClearingHandler(s: Cpu) {
    && s.Valid() && s.ctl.status == Running && s.ctl.bpMask == 0 && s.r[5] == 0x800
    && s.ctl.mtvec % 2 == 0 && s.ctl.mtvec + 8 <= |s.mem|
    && Word32(s.mem, s.ctl.mtvec) == CLEAR_WORD && Word32(s.mem, s.ctl.mtvec + 4) == MRET_WORD
  }

  lemma HandlerNumbers()
    ensures CLEAR_WORD % 0x80 == 0x73 && CLEAR_WORD / 0x1000 % 8 == 3 && LayoutI(CLEAR_WORD) == 0x344
    ensures CLEAR_WORD / 0x80 % 0x20 == 0 && CLEAR_WORD / 0x8000 % 0x20 == 5
    ensures MRET_WORD % 0x80 == 0x73 && MRET_WORD / 0x1000 % 8 == 0 && LayoutI(MRET_WORD) == 0x302
  {
  }

  lemma ClearWordFields()
    ensures Opcode(CLEAR_WORD) == 0x73 && Funct3(CLEAR_WORD) == 3 && ImmI(CLEAR_WORD) == 0x344
    ensures Rd(CLEAR_WORD) == 0 && Rs1(CLEAR_WORD) == 5
    ensures Opcode(MRET_WORD) == 0x73 && Funct3(MRET_WORD) == 0 && ImmI(MRET_WORD) == 0x302
  {
    hide *;
    HandlerNumbers();
    FieldsAtLiterals(CLEAR_WORD);
    FieldsAtLiterals(MRET_WORD);
  }

  lemma ClearExecutes(s: Cpu, host: Host)
    requires s.Valid() && s.r[5] == 0x800
    ensures var t := Execute(s, CLEAR_WORD, host);
      && Bits(t.ctl.mip) == Bits(s.ctl.mip) - {MEI} && t.mem == s.mem && t.r[1..] == s.r[1..]
      && t.ctl == s.ctl.(mip := t.ctl.mip, pc := Wrap(s.ctl.pc + 4))
  {
    hide And, Bits, Opcode, Rd, Rs1, Funct3, ImmI, Pow2, Not32;
    ClearWordFields();
    Pow2Values();
    AndLowMask(3, 2);
    assert Shl(1, MEI) == 0x800;
    ClearBitBits(s.ctl.mip, MEI);
  }

  /** The core fetches what lies at pc when nothing stops it. */
  lemma Fetches(s: Cpu, host: Host)
    requires s.Valid()
    requires var c := Prelude(s.ctl); !Stalled(c) && c.bpMask == 0 && c.pc + 4 <= |s.mem|
    ensures Fetched(s, host) == Some(Word32(s.mem, Prelude(s.ctl).pc))
  {
    hide Prelude, HitFrom, Word32;
  }

  lemma ClearingTick(s: Cpu, host: Host)
    requires ClearingHandler(s) && ExternalDue(s.ctl)
    ensures Fetched(s, host) == Some(CLEAR_WORD)
    ensures var u := Cycle(s, host);
      && MEI !in Bits(u.ctl.mip) && MIE !in Bits(u.ctl.mstatus) && u.mem == s.mem
      && u.ctl.pc == s.ctl.mtvec + 4 && u.ctl.ie == s.ctl.ie
      && u.ctl.status == Running && !u.ctl.wfi && u.ctl.bpMask == 0
  {
    hide Prelude, Execute, Bits, TrapDue, Word32;
    TrapTaken(s.ctl);
    PreludeEnables(s.ctl);
    Fetches(s, host);
    CycleControl(s, host);
    ClearExecutes(SetReg(s.(ctl := Prelude(s.ctl)), 0, 0), host);
  }

  lemma MretTick(u: Cpu, host: Host)
    requires u.Valid() && MIE !in Bits(u.ctl.mstatus) && u.ctl.pc + 4 <= |u.mem| && Word32(u.mem, u.ctl.pc) == MRET_WORD
    requires u.ctl.status == Running && !u.ctl.wfi && u.ctl.bpMask == 0
    ensures Fetched(u, host) == Some(MRET_WORD)
    ensures Cycle(u, host).ctl == Mret(u.ctl)
  {
    hide Prelude, Execute, Bits, Word32, Opcode, Funct3, ImmI, Mret;
    NoTrap(u.ctl);
    Fetches(u, host);
    CycleControl(u, host);
    ClearWordFields();
    ExecuteControl(SetReg(u, 0, 0), MRET_WORD, host);
  }

  /** Such a handler serves the interrupt and leaves MEIP clear. */
  lemma ClearingServes(s: Cpu, host: Host)
    requires ClearingHandler(s) && ExternalDue(s.ctl)
    ensures Serves(s, HandlerRun([Tick(host)], host))
    ensures MEI !in Bits(Run(s, [Tick(host), Tick(host)]).ctl.mip)
  {
    hide Prelude, Execute, Bits, TrapDue, Word32, Opcode, Funct3, ImmI, Cycle, Fetched, SetBit, GetBit;
    var u := Cycle(s, host);
    ClearingTick(s, host);
    MretTick(u, host);
    ClearWordFields();
    var run := HandlerRun([Tick(host)], host);
    assert [Tick(host)][..0] == [] && run.Events() == [Tick(host), Tick(host)] && run.Events()[..1] == [Tick(host)];
    RunNothing(s);
    RunTwo(s, Tick(host), Tick(host));
    assert Run(s, [Tick(host)]) == u;
    assert LeavesTrapState(s, []) && LeavesTrapState(s, [Tick(host)]);
    assert Quiet(s, []) && Quiet(s, [Tick(host)]);
  }

  /** A core about to take an external interrupt: handler at 4, interrupts on, line 1 enabled. */
  function Waiting(): (s: Cpu)
    ensures s.Valid()
  {
    Cpu(Ctl(Running, 0, seq(8, _ => 0), 0x100, 0x8, 0x800, 0, 4, 0, 0, false, 2, 0),
        seq(32, _ => 0)[5 := 0x800],
        [0, 0, 0, 0, 0x73, 0xb0, 0x42, 0x34, 0x73, 0x00, 0x20, 0x30])
  }

  lemma WaitingBits()
    ensures var c := Waiting().ctl;
      Bits(c.mstatus) == {MIE} && Bits(c.mie) == {MEI} && Bits(c.mip) == {} && Bits(c.ie) == {1} && Bits(c.ip) == {}
  {
    hide Bits;
    Pow2Values();
    BitsOfShlOne(MIE);
    BitsOfShlOne(MEI);
    BitsOfShlOne(1);
    BitsOfZero();
  }

  lemma TwoRaised()
    ensures var s := Run(Waiting(), [Irq(0), Irq(1)]);
      && ClearingHandler(s) && ExternalDue(s.ctl) && s.ctl.pc == 0x100
      && Bits(s.ctl.ip) == {0, 1} && Bits(s.ctl.ie) == {1} && Bits(s.ctl.mie) == {MEI}
  {
    hide Bits, Run, ExternalDue, Trigger, ClearingHandler;
    var w := Waiting();
    WaitingIsReady();
    WaitingBits();
    RunTwo(w, Irq(0), Irq(1));
    TriggerRaises(w.ctl, 0);
    TriggerRaises(Trigger(w.ctl, 0), 1);
    DueNow(Run(w, [Irq(0), Irq(1)]).ctl);
  }

  lemma ClearingStrands(s: Cpu, host: Host)
    requires ClearingHandler(s) && ExternalDue(s.ctl)
    ensures var t := Run(s, [Tick(host), Tick(host)]);
      && t.ctl.pc == s.ctl.pc && MIE in Bits(t.ctl.mstatus) && t.ctl.ie == s.ctl.ie && !ExternalDue(t.ctl)
      && Bits(t.ctl.ip) == Bits(s.ctl.ip) - {Line(s) as nat}
  {
    hide Bits, Run, Serves, ExternalDue, Line, Drain, ClearingHandler;
    var run := HandlerRun([Tick(host)], host);
    assert s.Valid() by { ValidHandler(s); }
    ClearingServes(s, host);
    assert run.Events() == [Tick(host), Tick(host)];
    ServedIsDrained(s, run);
    RunNothing(Run(s, run.Events()));
    assert NeverSetsMeip(Run(s, run.Events()), []);
    HandlerStrands(s, run, []);
  }

  lemma ValidHandler(s: Cpu)
    requires ClearingHandler(s)
    ensures s.Valid()
  {
  }

  /** Two lines are raised, the handler serves the first, and the second, though enabled, stays pending with
      no external trap due, the core back in the interrupted program with interrupts on. */
  lemma StrandedWitness(host: Host)
    ensures var t := Run(Waiting(), [Irq(0), Irq(1)] + [Tick(host), Tick(host)]);
      && t.ctl.pc == 0x100 && MIE in Bits(t.ctl.mstatus)
      && Bits(t.ctl.ie) * Bits(t.ctl.ip) == {1} && !ExternalDue(t.ctl)
  {
    hide Bits, Run, ExternalDue, ClearingHandler, Waiting, Line, ClaimIrq;
    TwoRaised();
    var s := Run(Waiting(), [Irq(0), Irq(1)]);
    RunConcat(Waiting(), [Irq(0), Irq(1)], [Tick(host), Tick(host)]);
    ClearingStrands(s, host);
    LineIsFirst(s);
  }

  lemma LineIsFirst(s: Cpu)
    requires ExternalDue(s.ctl) && Bits(s.ctl.ip) == {0, 1}
    ensures Line(s) == 0
  {
    hide Bits, Prelude, ClaimIrq, TrapDue;
    LineIsClaimed(s.ctl);
    ClaimTakesLowest(s.ctl);
    assert 0 in Bits(s.ctl.ip);
  }

  lemma WaitingIsReady()
    ensures ClearingHandler(Waiting())
    ensures forall c: Ctl :: c == Waiting().ctl.(ip := c.ip, mip := c.mip) ==> ClearingHandler(Waiting().(ctl := c))
  {
  }

  lemma DueNow(c: Ctl)
    requires Bits(c.mstatus) == {MIE} && Bits(c.mie) == {MEI} && Bits(c.mip) == {MEI}
    requires Bits(c.ie) == {1} && Bits(c.ip) == {0, 1}
    ensures ExternalDue(c)
  {
    hide Bits;
    assert 1 in Bits(c.ie) * Bits(c.ip);
  }

  // ----- trap entry against the manual, on concrete states -----

  /** With line 0 raised the manual's cause code is 11; the core's is 16. */
  lemma CauseWitness()
    ensures var c := Run(Waiting(), [Irq(0), Irq(1)]).ctl;
      ManualKind(c) == Some(11) && Prelude(c).mcause == 0x8000_0010 && !ManualTrap(c, Prelude(c))
  {
    hide Bits, Run, Prelude, ClaimIrq, TrapDue, ManualTrap, Waiting, ClearingHandler;
    var s := Run(Waiting(), [Irq(0), Irq(1)]);
    TwoRaised();
    TakenIffSole(s.ctl);
    OnlyOne(s.ctl);
    LineIsFirst(s);
    PreludeMeetsManual(s.ctl);
  }

  lemma OnlyOne(c: Ctl)
    requires OnlyKind(c, MEI)
    ensures !OnlyKind(c, MSI) && !OnlyKind(c, MTI)
    ensures MIE in Bits(c.mstatus) ==> ManualKind(c) == Some(MEI)
  {
    hide Bits;
    assert MEI in Bits(c.mie) * Bits(c.mip) && MEI !in {MSI} && MEI !in {MTI};
  }

  /** With a software interrupt pending as well, the manual takes the external one, and the core takes none. */
  lemma PriorityWitness()
    ensures var both := Or32(0x800, 0x8);
      var c := Waiting().ctl.(mie := both, mip := both, ip := 2);
      ManualKind(c) == Some(MEI) && Prelude(c) == c && !ManualTrap(c, Prelude(c))
  {
    hide Bits, Prelude, ManualTrap, ManualKind, Or32;
    Pow2Values();
    BitsOfShlOne(MIE);
    BitsOfShlOne(MEI);
    BitsOfOr(0x800, 0x8);
    TwoKindsWait(Waiting().ctl.(mie := Or32(0x800, 0x8), mip := Or32(0x800, 0x8), ip := 2));
  }
}
