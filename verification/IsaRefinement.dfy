/**
 The core refines the manuals' hart.  Forgetting r[0], which the source clears only
 when the next instruction executes, every cycle on a legal encoding is a step of
 the hart, except exactly where Deviates says; so is every run without such a step.
 */
module IsaRefinement {
  import opened Words
  import opened Immediates
  import opened Memory
  import opened Control
  import opened Core
  import opened IsaArithmetic
  import Isa
  import Alu
  import Breakpoints
  import Interrupts

  type Hart = Isa.Hart

  function Abs(s: Cpu): (h: Hart)
    requires s.Valid()
    ensures h.Valid()
  {
    Isa.Hart(s.ctl, s.r[1..], s.mem)
  }

  /** The operands and targets on which the core departs from the manual. */
  predicate Deviates(h: Hart, w: u32)
    requires h.Valid()
  {
    match Isa.Decode(w)
    case Some(OpImm(op, rd, rs1, _)) => op == Isa.SLTU && rd != 0 && SltiuDiffers(w, h.X(rs1))
    case Some(Jal(_, imm)) => !SignBitsAgree(w) || Wrap(h.ctl.pc + imm) % 4 != 0
    case Some(Jalr(_, rs1, imm)) => Wrap(h.X(rs1) + imm) / 2 % 2 != 0
    case Some(Branch(cond, rs1, rs2, imm)) =>
      Isa.Holds(cond, h.X(rs1), h.X(rs2)) && Wrap(h.ctl.pc + imm) % 4 != 0
    case Some(Csr(_, _, csr, _, _)) => csr !in Isa.IMPLEMENTED_CSRS
    case Some(Fence) => true
    case Some(Mret) => !Bit(h.ctl.mstatus, 7)
    case _ => false
  }

  /** Bits 19 and 20 of the jal offset are equal. */
  predicate SignBitsAgree(w: u32) {
    LayoutJ(w) / 0x8_0000 % 2 == LayoutJ(w) / 0x10_0000
  }

  // ----- registers -----

  lemma ReadsAgree(s: Cpu, i: nat)
    requires s.Valid() && s.r[0] == 0 && i < 32
    ensures Abs(s).X(i) == s.r[i]
  {
  }

  lemma WritesAgree(s: Cpu, i: u32, v: u32)
    requires s.Valid() && i < 32
    ensures Abs(SetReg(s, i, v)) == Abs(s).SetX(i, v)
  {
    if i == 0 {
      assert s.r[0 := v][1..] == s.r[1..];
    } else {
      assert s.r[i := v][1..] == s.r[1..][i - 1 := v];
    }
  }

  lemma WriteBackAgrees(s: Cpu, w: u32, v: u32)
    requires s.Valid()
    ensures Abs(WriteBack(s, w, Some(v))) == Abs(s).SetX(w / 0x80 % 0x20, v).Advance()
  {
    hide Rd, Opcode, Rs1, Rs2, Funct3, Funct7, ImmI, ImmU;
    FieldsAtLiterals(w);
    WritesAgree(s, Rd(w), v);
  }

  /** Registers written with different values are different, unless they are x0. */
  lemma WritesDiffer(h: Hart, i: nat, v: u32, v': u32)
    requires h.Valid() && i < 32
    ensures h.SetX(i, v).Advance() == h.SetX(i, v').Advance() <==> i == 0 || v == v'
  {
    if i != 0 {
      assert h.SetX(i, v).x[i - 1] == v && h.SetX(i, v').x[i - 1] == v';
    }
  }

  // ----- the core, opcode by opcode -----

  lemma ExecutesByFields(s: Cpu, w: u32, host: Host)
    requires s.Valid()
    ensures |s.r| == 32
    ensures var link, target := Wrap(s.ctl.pc + 4), And(Wrap(s.r[Rs1(w)] + SExtImmI(w)), Not32(1));
      var op := RegisterOp(Funct3(w), Funct7(w), s.r[Rs1(w)], s.r[Rs2(w)]);
      && (Opcode(w) == 0x33 ==> Execute(s, w, host) == WriteBack(s, w, op))
      && (Opcode(w) == 0x13 ==> Execute(s, w, host) == WriteBack(s, w, ImmediateOp(w, s.r[Rs1(w)])))
      && (Opcode(w) == 0x03 ==> Execute(s, w, host) == ExecuteLoad(s, w, host))
      && (Opcode(w) == 0x23 ==> Execute(s, w, host) == ExecuteStore(s, w, host))
      && (Opcode(w) == 0x63 ==> Execute(s, w, host) == ExecuteBranch(s, w))
      && (Opcode(w) == 0x6f ==> Execute(s, w, host) == Jump(SetReg(s, Rd(w), link), Wrap(s.ctl.pc + SExtImmJ(w))))
      && (Opcode(w) == 0x67 ==> Execute(s, w, host) == SetReg(Jump(s, target), Rd(w), link))
      && (Opcode(w) == 0x37 ==> Execute(s, w, host) == Next(SetReg(s, Rd(w), Shl(SExtImmU(w), 12))))
      && (Opcode(w) == 0x17 ==> Execute(s, w, host) == Next(SetReg(s, Rd(w), Wrap(s.ctl.pc + Shl(SExtImmU(w), 12)))))
      && (Opcode(w) == 0x73 ==> Execute(s, w, host) == ExecuteSystem(s, w, host))
      && (Opcode(w) == 0x0f ==> Execute(s, w, host) == Stop(s, InvalidInstruction))
  {
    hide WriteBack, RegisterOp, ImmediateOp, ExecuteLoad, ExecuteStore, ExecuteBranch, ExecuteSystem, Shl, And, Wrap,
         SExtImmI, SExtImmJ, SExtImmU, Opcode, Rd, Rs1, Rs2, Funct3, Funct7, SetReg, Jump, Next, Not32, Stop;
  }

  /** Execute by the fields of the word; the lemmas below need nothing else about it. */
  lemma Executes(s: Cpu, w: u32, host: Host)
    requires s.Valid()
    ensures |s.r| == 32
    ensures w % 0x80 == 0x33 ==>
              Execute(s, w, host) == WriteBack(s, w, RegisterOp(w / 0x1000 % 8, w / 0x200_0000,
                                                                s.r[w / 0x8000 % 0x20], s.r[w / 0x10_0000 % 0x20]))
    ensures w % 0x80 == 0x13 ==> Execute(s, w, host) == WriteBack(s, w, ImmediateOp(w, s.r[w / 0x8000 % 0x20]))
    ensures w % 0x80 == 0x03 ==> Execute(s, w, host) == ExecuteLoad(s, w, host)
    ensures w % 0x80 == 0x23 ==> Execute(s, w, host) == ExecuteStore(s, w, host)
    ensures w % 0x80 == 0x63 ==> Execute(s, w, host) == ExecuteBranch(s, w)
    ensures w % 0x80 == 0x73 ==> Execute(s, w, host) == ExecuteSystem(s, w, host)
    ensures w % 0x80 == 0x0f ==> Execute(s, w, host) == Stop(s, InvalidInstruction)
  {
    hide *;
    FieldsAtLiterals(w);
    ExecutesByFields(s, w, host);
    assert w / 0x200_0000 < 0x80;
  }

  /** The same for jal, jalr, lui and auipc. */
  lemma ExecutesJump(s: Cpu, w: u32, host: Host)
    requires s.Valid()
    ensures |s.r| == 32
    ensures var rd, link := w / 0x80 % 0x20, Wrap(s.ctl.pc + 4);
      && (w % 0x80 == 0x6f ==> Execute(s, w, host) == Jump(SetReg(s, rd, link), Wrap(s.ctl.pc + SExtImmJ(w))))
      && (w % 0x80 == 0x67 ==>
            Execute(s, w, host)
              == SetReg(Jump(s, And(Wrap(s.r[w / 0x8000 % 0x20] + SExtImmI(w)), Not32(1))), rd, link))
      && (w % 0x80 == 0x37 ==> Execute(s, w, host) == Next(SetReg(s, rd, Shl(SExtImmU(w), 12))))
      && (w % 0x80 == 0x17 ==> Execute(s, w, host) == Next(SetReg(s, rd, Wrap(s.ctl.pc + Shl(SExtImmU(w), 12)))))
  {
    hide *;
    FieldsAtLiterals(w);
    ExecutesByFields(s, w, host);
  }

  // ----- the hart, opcode by opcode: what a decoded word does, and when it deviates -----

  lemma HartOp(h: Hart, w: u32, host: Host)
    requires h.Valid() && w % 0x80 == 0x33 && Isa.Decode(w).Some?
    ensures var d := Isa.DecodeOp(w / 0x1000 % 8, w / 0x200_0000);
      && d.Some? && !Deviates(h, w)
      && Isa.Perform(h, Isa.Decode(w).value, host)
        == Isa.Next(h.SetX(w / 0x80 % 0x20,
                           Isa.Value(d.value, h.X(w / 0x8000 % 0x20), h.X(w / 0x10_0000 % 0x20))).Advance())
  {
    hide Isa.DecodeOp, Isa.Value;
  }

  lemma HartOpImm(h: Hart, w: u32, host: Host)
    requires h.Valid() && w % 0x80 == 0x13 && Isa.Decode(w).Some?
    ensures var d, rd, a := Isa.DecodeOpImm(w / 0x1000 % 8, w / 0x200_0000), w / 0x80 % 0x20, h.X(w / 0x8000 % 0x20);
      && d.Some? && (Deviates(h, w) <==> d.value == Isa.SLTU && rd != 0 && SltiuDiffers(w, a))
      && Isa.Perform(h, Isa.Decode(w).value, host)
        == Isa.Next(h.SetX(rd, Isa.Value(d.value, a, Wrap(ImmOperand(w, d.value)))).Advance())
  {
    hide Isa.DecodeOpImm, LayoutI, Extend, Isa.Value, Wrap, SltiuDiffers;
  }

  lemma HartLoad(h: Hart, w: u32, host: Host)
    requires h.Valid() && w % 0x80 == 0x03 && Isa.Decode(w).Some?
    ensures var d := Isa.DecodeLoad(w / 0x1000 % 8);
      && d.Some? && !Deviates(h, w)
      && Isa.Perform(h, Isa.Decode(w).value, host)
        == Isa.PerformLoad(h, d.value.0, d.value.1, w / 0x80 % 0x20,
                           Wrap(h.X(w / 0x8000 % 0x20) + Extend(LayoutI(w), 0x800)), host)
  {
    hide Isa.DecodeLoad, LayoutI, Extend, Isa.PerformLoad, Wrap;
  }

  lemma HartStore(h: Hart, w: u32, host: Host)
    requires h.Valid() && w % 0x80 == 0x23 && Isa.Decode(w).Some?
    ensures var d := Isa.DecodeStore(w / 0x1000 % 8);
      && d.Some? && !Deviates(h, w)
      && Isa.Perform(h, Isa.Decode(w).value, host)
        == Isa.PerformStore(h, d.value, Wrap(h.X(w / 0x8000 % 0x20) + Extend(LayoutS(w), 0x800)),
                            h.X(w / 0x10_0000 % 0x20), host)
  {
    hide Isa.DecodeStore, LayoutS, Extend, Isa.PerformStore, Wrap;
  }

  lemma HartBranch(h: Hart, w: u32, host: Host)
    requires h.Valid() && w % 0x80 == 0x63 && Isa.Decode(w).Some?
    ensures var d := Isa.DecodeBranch(w / 0x1000 % 8);
      && d.Some?
      && var taken := Isa.Holds(d.value, h.X(w / 0x8000 % 0x20), h.X(w / 0x10_0000 % 0x20));
      && var target := Wrap(h.ctl.pc + Extend(LayoutB(w), 0x1000));
      && (Deviates(h, w) <==> taken && target % 4 != 0)
      && Isa.Perform(h, Isa.Decode(w).value, host)
        == if !taken then Isa.Next(h.Advance())
           else if target % 4 != 0 then Isa.Misaligned
           else Isa.Next(h.Goto(target))
  {
    hide Isa.DecodeBranch, LayoutB, Extend, Isa.Holds, Wrap;
  }

  lemma HartJal(h: Hart, w: u32, host: Host)
    requires h.Valid() && w % 0x80 == 0x6f && Isa.Decode(w).Some?
    ensures var target := Wrap(h.ctl.pc + Extend(LayoutJ(w), 0x10_0000));
      && (Deviates(h, w) <==> !SignBitsAgree(w) || target % 4 != 0)
      && Isa.Perform(h, Isa.Decode(w).value, host)
        == if target % 4 != 0 then Isa.Misaligned
           else Isa.Next(h.SetX(w / 0x80 % 0x20, Wrap(h.ctl.pc + 4)).Goto(target))
  {
    hide LayoutJ, Extend, Wrap, SignBitsAgree;
  }

  lemma HartJalr(h: Hart, w: u32, host: Host)
    requires h.Valid() && w % 0x80 == 0x67 && Isa.Decode(w).Some?
    ensures var sum := Wrap(h.X(w / 0x8000 % 0x20) + Extend(LayoutI(w), 0x800));
      var target := sum - sum % 2;
      && (Deviates(h, w) <==> sum / 2 % 2 != 0)
      && Isa.Perform(h, Isa.Decode(w).value, host)
        == if target % 4 != 0 then Isa.Misaligned
           else Isa.Next(h.SetX(w / 0x80 % 0x20, Wrap(h.ctl.pc + 4)).Goto(target))
  {
    hide LayoutI, Extend, Wrap;
  }

  /** lui and auipc. */
  lemma HartUpper(h: Hart, w: u32, host: Host)
    requires h.Valid() && w % 0x80 in {0x37, 0x17} && Isa.Decode(w).Some?
    ensures var v := Wrap((if w % 0x80 == 0x17 then h.ctl.pc else 0) + LayoutU(w) * 0x1000);
      && !Deviates(h, w)
      && Isa.Perform(h, Isa.Decode(w).value, host) == Isa.Next(h.SetX(w / 0x80 % 0x20, v).Advance())
  {
    hide LayoutU, Wrap;
  }

  // ----- one lemma per opcode -----

  /** What each of them shows. */
  predicate Matches(s: Cpu, w: u32, host: Host)
    requires s.Valid() && Isa.Decode(w).Some?
  {
    (Isa.Perform(Abs(s), Isa.Decode(w).value, host) == Isa.Next(Abs(Execute(s, w, host))))
    <==> !Deviates(Abs(s), w)
  }

  lemma MatchesMeans(s: Cpu, w: u32, host: Host)
    requires s.Valid() && Isa.Decode(w).Some?
    ensures Matches(s, w, host)
        <==> ((Isa.Perform(Abs(s), Isa.Decode(w).value, host) == Isa.Next(Abs(Execute(s, w, host))))
              <==> !Deviates(Abs(s), w))
  {
    hide Isa.Perform, Execute, Deviates, Abs;
  }

  /** Jumping and advancing commute with the abstraction, which keeps the control state. */
  lemma MovesAgree(s: Cpu, pc: u32)
    requires s.Valid()
    ensures Jump(s, pc).Valid()
    ensures Abs(Jump(s, pc)) == Abs(s).Goto(pc) && Abs(Next(s)) == Abs(s).Advance() && Abs(s).ctl == s.ctl
  {
  }

  lemma OpMatches(s: Cpu, w: u32, host: Host)
    requires s.Valid() && s.r[0] == 0 && Isa.Decode(w).Some? && w % 0x80 == 0x33
    ensures Matches(s, w, host)
  {
    hide *;
    Executes(s, w, host);
    HartOp(Abs(s), w, host);
    MatchesMeans(s, w, host);
    var funct3, funct7, a, b := w / 0x1000 % 8, w / 0x200_0000, s.r[w / 0x8000 % 0x20], s.r[w / 0x10_0000 % 0x20];
    ReadsAgree(s, w / 0x8000 % 0x20);
    ReadsAgree(s, w / 0x10_0000 % 0x20);
    RegisterOpAgrees(funct3, funct7, a, b);
    WriteBackAgrees(s, w, Isa.Value(Isa.DecodeOp(funct3, funct7).value, a, b));
  }

  lemma OpImmMatches(s: Cpu, w: u32, host: Host)
    requires s.Valid() && s.r[0] == 0 && Isa.Decode(w).Some? && w % 0x80 == 0x13
    ensures Matches(s, w, host)
  {
    hide *;
    Executes(s, w, host);
    HartOpImm(Abs(s), w, host);
    MatchesMeans(s, w, host);
    var a, op := s.r[w / 0x8000 % 0x20], Isa.DecodeOpImm(w / 0x1000 % 8, w / 0x200_0000).value;
    ReadsAgree(s, w / 0x8000 % 0x20);
    ImmediateOpAgrees(w, a);
    var v := ImmediateOp(w, a).value;
    WriteBackAgrees(s, w, v);
    WritesDiffer(Abs(s), w / 0x80 % 0x20, v, Isa.Value(op, a, Wrap(ImmOperand(w, op))));
  }

  lemma SignExtensionAgrees(width: Width, signed: bool, v: u32)
    requires v < Pow2(8 * width.Size())
    ensures (match width case Word => v case _ => Extended(width, signed, v)) == Isa.Sized(width, signed, v)
  {
    hide SExt, Pow2;
    Pow2Values();
    match width
    case Byte => SExtValue(v, 8, 0x80, 0xff_ffff);
    case Half => SExtValue(v, 16, 0x8000, 0xffff);
    case Word =>
  }

  lemma LoadFits(width: Width, mem: seq<u8>, ie: u32, host: Host, addr: u32)
    requires RamSize(mem)
    ensures var r := Load(width, mem, ie, host, addr); r.Some? ==> r.value < Pow2(8 * width.Size())
  {
    Pow2Values();
  }

  lemma ReadAgrees(width: Width, s: Cpu, host: Host, addr: u32)
    requires s.Valid()
    ensures Isa.Read(width, Abs(s), host, addr) == Load(width, s.mem, s.ctl.ie, host, addr)
  {
    hide Load;
    LoadReads(width, s.mem, s.ctl.ie, host, addr, s.mem);
    LoadOutside(s.mem, s.ctl.ie, host, addr);
  }

  lemma LoadAgrees(s: Cpu, w: u32, host: Host, rd: nat, rs1: nat, width: Width, signed: bool, imm: int)
    requires s.Valid() && s.r[0] == 0 && rd < 32 && rs1 < 32
    requires Rd(w) == rd && Rs1(w) == rs1 && SExtImmI(w) == Wrap(imm)
    requires Isa.DecodeLoad(Funct3(w)) == Some((width, signed))
    ensures Isa.PerformLoad(Abs(s), width, signed, rd, Wrap(Abs(s).X(rs1) + imm), host)
         == Isa.Next(Abs(ExecuteLoad(s, w, host)))
  {
    hide Load, Isa.Read, Rd, Rs1, Funct3, SExtImmI, Extended, Isa.Sized, Wrap, Pow2, LoadKind, Isa.DecodeLoad;
    LoadKindAgrees(Funct3(w));
    var addr := Wrap(s.r[rs1] + SExtImmI(w));
    ReadsAgree(s, rs1);
    SameAddress(s.r[rs1], imm);
    ReadAgrees(width, s, host, addr);
    LoadFits(width, s.mem, s.ctl.ie, host, addr);
    match Load(width, s.mem, s.ctl.ie, host, addr)
    case None =>
    case Some(v) =>
      SignExtensionAgrees(width, signed, v);
      PlainWord(width, signed, v);
      WritesAgree(s, rd, Isa.Sized(width, signed, v));
  }

  lemma LoadKindAgrees(funct3: u32)
    ensures LoadKind(funct3).Some? <==> Isa.DecodeLoad(funct3).Some?
    ensures LoadKind(funct3).Some? ==>
              var (width, signed) := Isa.DecodeLoad(funct3).value;
              LoadKind(funct3).value == (width, signed && width != Word)
  {
  }

  lemma PlainWord(width: Width, signed: bool, v: u32)
    ensures Extended(width, false, v) == v
  {
  }

  lemma LoadMatches(s: Cpu, w: u32, host: Host)
    requires s.Valid() && s.r[0] == 0 && Isa.Decode(w).Some? && w % 0x80 == 0x03
    ensures Matches(s, w, host)
  {
    hide *;
    Executes(s, w, host);
    HartLoad(Abs(s), w, host);
    MatchesMeans(s, w, host);
    FieldsAtLiterals(w);
    SignedImmediates(w);
    var (width, signed) := Isa.DecodeLoad(w / 0x1000 % 8).value;
    LoadAgrees(s, w, host, w / 0x80 % 0x20, w / 0x8000 % 0x20, width, signed, Extend(LayoutI(w), 0x800));
  }

  lemma WriteAgrees(width: Width, s: Cpu, host: Host, addr: u32, v: u32)
    requires s.Valid()
    ensures Isa.Write(width, Abs(s), host, addr, v)
         == match Store(width, s.mem, s.ctl.ie, host, addr, v)
            case None => None
            case Some((mem, ie)) => Some(Abs(s.(mem := mem, ctl := s.ctl.(ie := ie))))
  {
    hide Store, Splice;
    StoreWrites(width, s.mem, s.ctl.ie, host, addr, v);
    StoreOutside(s.mem, s.ctl.ie, host, addr, v);
  }

  lemma StoreAgrees(s: Cpu, w: u32, host: Host, rs1: nat, rs2: nat, width: Width, imm: int)
    requires s.Valid() && s.r[0] == 0 && rs1 < 32 && rs2 < 32
    requires Rs1(w) == rs1 && Rs2(w) == rs2 && SExtImmS(w) == Wrap(imm)
    requires Isa.DecodeStore(Funct3(w)) == Some(width)
    ensures Isa.PerformStore(Abs(s), width, Wrap(Abs(s).X(rs1) + imm), Abs(s).X(rs2), host)
         == Isa.Next(Abs(ExecuteStore(s, w, host)))
  {
    hide Store, Isa.Write, Rs1, Rs2, Funct3, SExtImmS, Wrap;
    ReadsAgree(s, rs1);
    ReadsAgree(s, rs2);
    SameAddress(s.r[rs1], imm);
    WriteAgrees(width, s, host, Wrap(s.r[rs1] + SExtImmS(w)), s.r[rs2]);
  }

  lemma StoreMatches(s: Cpu, w: u32, host: Host)
    requires s.Valid() && s.r[0] == 0 && Isa.Decode(w).Some? && w % 0x80 == 0x23
    ensures Matches(s, w, host)
  {
    hide *;
    Executes(s, w, host);
    HartStore(Abs(s), w, host);
    MatchesMeans(s, w, host);
    FieldsAtLiterals(w);
    SignedImmediates(w);
    var width := Isa.DecodeStore(w / 0x1000 % 8).value;
    StoreAgrees(s, w, host, w / 0x8000 % 0x20, w / 0x10_0000 % 0x20, width, Extend(LayoutS(w), 0x800));
  }

  lemma ConditionAgrees(funct3: u32, a: u32, b: u32)
    requires Isa.DecodeBranch(funct3).Some?
    ensures BranchTaken(funct3, a, b) == Some(Isa.Holds(Isa.DecodeBranch(funct3).value, a, b))
  {
  }

  lemma BranchAgrees(s: Cpu, w: u32, condition: Isa.Condition)
    requires s.Valid() && s.r[0] == 0 && Isa.DecodeBranch(w / 0x1000 % 8) == Some(condition)
    ensures var taken := Isa.Holds(condition, Abs(s).X(w / 0x8000 % 0x20), Abs(s).X(w / 0x10_0000 % 0x20));
      ExecuteBranch(s, w) == if taken then Jump(s, Wrap(s.ctl.pc + SExtImmB(w))) else Next(s)
  {
    hide Isa.DecodeBranch, Isa.Holds, BranchTaken, Wrap, SExtImmB, Opcode, Rd, Rs1, Rs2, Funct3, Funct7, ImmI, ImmU;
    FieldsAtLiterals(w);
    ReadsAgree(s, w / 0x8000 % 0x20);
    ReadsAgree(s, w / 0x10_0000 % 0x20);
    ConditionAgrees(w / 0x1000 % 8, s.r[w / 0x8000 % 0x20], s.r[w / 0x10_0000 % 0x20]);
  }

  lemma BranchMatches(s: Cpu, w: u32, host: Host)
    requires s.Valid() && s.r[0] == 0 && Isa.Decode(w).Some? && w % 0x80 == 0x63
    ensures Matches(s, w, host)
  {
    hide *;
    Executes(s, w, host);
    HartBranch(Abs(s), w, host);
    MatchesMeans(s, w, host);
    SignedImmediates(w);
    BranchAgrees(s, w, Isa.DecodeBranch(w / 0x1000 % 8).value);
    SameAddress(s.ctl.pc, Extend(LayoutB(w), 0x1000));
    MovesAgree(s, Wrap(s.ctl.pc + SExtImmB(w)));
  }

  lemma SameAddress(a: u32, imm: int)
    ensures Wrap(a + Wrap(imm)) == Wrap(a + imm)
  {
  }

  // ----- jumps -----

  /** The two readings of a jal offset agree modulo 2^32 exactly when bits 19 and 20 are equal. */
  lemma JalOffsets(w: u32, pc: u32)
    ensures Wrap(pc + SExtImmJ(w)) == Wrap(pc + Extend(LayoutJ(w), 0x10_0000)) <==> SignBitsAgree(w)
  {
    hide SExtImmJ;
    SExtImmJAsWritten(w);
    OffsetsDiffer(LayoutJ(w), pc);
  }

  lemma OffsetsDiffer(x: u32, pc: u32)
    requires x < 0x20_0000
    ensures Wrap(pc + Wrap(JalAsWritten(x))) == Wrap(pc + Extend(x, 0x10_0000))
        <==> x / 0x8_0000 % 2 == x / 0x10_0000
  {
    var d := JalAsWritten(x) - Extend(x, 0x10_0000);
    assert d == 0 <==> x / 0x8_0000 % 2 == x / 0x10_0000;
    assert -0x20_0000 <= d <= 0x20_0000;
    SameAddress(pc, JalAsWritten(x));
    CloseResidues(pc + JalAsWritten(x), pc + Extend(x, 0x10_0000));
  }

  lemma CloseResidues(x: int, y: int)
    requires -0x20_0000 <= x - y <= 0x20_0000
    ensures Wrap(x) == Wrap(y) <==> x == y
  {
  }

  lemma LinkAgrees(s: Cpu, rd: u32, link: u32, target: u32)
    requires s.Valid() && rd < 32
    ensures Jump(s, target).Valid()
    ensures Abs(Jump(SetReg(s, rd, link), target)) == Abs(s).SetX(rd, link).Goto(target)
    ensures Abs(SetReg(Jump(s, target), rd, link)) == Abs(s).SetX(rd, link).Goto(target)
  {
    WritesAgree(s, rd, link);
    WritesAgree(Jump(s, target), rd, link);
  }

  lemma TargetsDiffer(h: Hart, pc: u32, pc': u32)
    ensures h.Goto(pc) == h.Goto(pc') <==> pc == pc'
  {
    assert h.Goto(pc).ctl.pc == pc && h.Goto(pc').ctl.pc == pc';
  }

  lemma JalMatches(s: Cpu, w: u32, host: Host)
    requires s.Valid() && s.r[0] == 0 && Isa.Decode(w).Some? && w % 0x80 == 0x6f
    ensures Matches(s, w, host)
  {
    hide *;
    ExecutesJump(s, w, host);
    HartJal(Abs(s), w, host);
    MatchesMeans(s, w, host);
    JalOffsets(w, s.ctl.pc);
    LinkAgrees(s, w / 0x80 % 0x20, Wrap(s.ctl.pc + 4), Wrap(s.ctl.pc + SExtImmJ(w)));
    MovesAgree(s, 0);
    TargetsDiffer(Abs(s).SetX(w / 0x80 % 0x20, Wrap(s.ctl.pc + 4)), Wrap(s.ctl.pc + SExtImmJ(w)),
                  Wrap(s.ctl.pc + Extend(LayoutJ(w), 0x10_0000)));
  }

  lemma EvenTarget(v: u32)
    ensures And(v, Not32(1)) == v - v % 2
    ensures (v - v % 2) % 4 != 0 <==> v / 2 % 2 != 0
  {
    hide And, Pow2;
    Pow2Values();
    Keep(v, 1, 31, 2, 0x8000_0000);
  }

  lemma JalrMatches(s: Cpu, w: u32, host: Host)
    requires s.Valid() && s.r[0] == 0 && Isa.Decode(w).Some? && w % 0x80 == 0x67
    ensures Matches(s, w, host)
  {
    hide *;
    ExecutesJump(s, w, host);
    HartJalr(Abs(s), w, host);
    MatchesMeans(s, w, host);
    SignedImmediates(w);
    ReadsAgree(s, w / 0x8000 % 0x20);
    SameAddress(s.r[w / 0x8000 % 0x20], Extend(LayoutI(w), 0x800));
    EvenTarget(Wrap(s.r[w / 0x8000 % 0x20] + SExtImmI(w)));
    LinkAgrees(s, w / 0x80 % 0x20, Wrap(s.ctl.pc + 4), And(Wrap(s.r[w / 0x8000 % 0x20] + SExtImmI(w)), Not32(1)));
    MovesAgree(s, 0);
  }

  /** The sign extension in SEXT_IMM_U is shifted out again. */
  lemma UpperImmediate(w: u32)
    ensures Shl(SExtImmU(w), 12) == Wrap(LayoutU(w) * 0x1000)
  {
    hide SExtImmU, Pow2;
    Pow2Values();
    SignedImmediates(w);
    ShiftedOut(LayoutU(w));
  }

  lemma ShiftedOut(u: u32)
    requires u < 0x10_0000
    ensures Wrap(Wrap(Extend(u, 0x8_0000)) * 0x1000) == Wrap(u * 0x1000)
  {
    if u >= 0x8_0000 { Alu.SameResidue(u * 0x1000, (u + 0xFFF0_0000) * 0x1000, -0xFFF); }
  }

  lemma LuiMatches(s: Cpu, w: u32, host: Host)
    requires s.Valid() && s.r[0] == 0 && Isa.Decode(w).Some? && w % 0x80 == 0x37
    ensures Matches(s, w, host)
  {
    hide *;
    ExecutesJump(s, w, host);
    HartUpper(Abs(s), w, host);
    MatchesMeans(s, w, host);
    UpperImmediate(w);
    WritesAgree(s, w / 0x80 % 0x20, Wrap(LayoutU(w) * 0x1000));
    MovesAgree(SetReg(s, w / 0x80 % 0x20, Wrap(LayoutU(w) * 0x1000)), 0);
  }

  lemma AuipcMatches(s: Cpu, w: u32, host: Host)
    requires s.Valid() && s.r[0] == 0 && Isa.Decode(w).Some? && w % 0x80 == 0x17
    ensures Matches(s, w, host)
  {
    hide *;
    ExecutesJump(s, w, host);
    HartUpper(Abs(s), w, host);
    MatchesMeans(s, w, host);
    UpperImmediate(w);
    SameAddress(s.ctl.pc, LayoutU(w) * 0x1000);
    var v := Wrap(s.ctl.pc + LayoutU(w) * 0x1000);
    WritesAgree(s, w / 0x80 % 0x20, v);
    MovesAgree(SetReg(s, w / 0x80 % 0x20, v), 0);
    MovesAgree(s, 0);
  }

  // ----- SYSTEM -----

  predicate IsEnvironment(w: u32) {
    w == 0x0000_0073 || w == 0x0010_0073 || w == 0x3020_0073 || w == 0x1050_0073
  }

  lemma DecodesEnvironment(w: u32)
    requires IsEnvironment(w)
    ensures Isa.Decode(w) == Some(if w == 0x0000_0073 then Isa.Ecall else if w == 0x0010_0073 then Isa.Instr.Ebreak
                                  else if w == 0x3020_0073 then Isa.Mret else Isa.Wfi)
  {
    hide Isa.DecodeOp, Isa.DecodeOpImm, Isa.DecodeLoad, Isa.DecodeStore, Isa.DecodeBranch, LayoutI, LayoutS, LayoutB,
         LayoutJ, LayoutU, Extend;
  }

  lemma EnvironmentExecutes(s: Cpu, w: u32, host: Host)
    requires s.Valid() && IsEnvironment(w)
    ensures Execute(s, w, host)
         == if w == 0x0000_0073 then Ecall(s, host)
            else if w == 0x0010_0073 then Next(Stop(s, Ebreak))
            else if w == 0x3020_0073 then s.(ctl := Mret(s.ctl))
            else Next(s.(ctl := s.ctl.(wfi := true)))
  {
    hide Execute, Ecall, ExecuteCsr, Mret, And, Opcode, Funct3, ImmI;
    Executes(s, w, host);
    EnvironmentFields(w);
    EnvironmentNumbers(w);
  }

  lemma EnvironmentMatches(s: Cpu, w: u32, host: Host)
    requires s.Valid() && s.r[0] == 0 && Isa.Decode(w).Some? && IsEnvironment(w)
    ensures Matches(s, w, host)
  {
    hide Execute, Isa.Decode, Wrap, Isa.Value, Isa.PerformLoad, Isa.PerformStore, Isa.PerformCsr, Isa.Transfer,
         Isa.Holds, SltiuDiffers, SignBitsAgree, SetBit, GetBit, Isa.FromBits32, Bit;
    EnvironmentExecutes(s, w, host);
    DecodesEnvironment(w);
    assert s.r == [0] + s.r[1..];
    MretAgrees(s.ctl.mstatus);
  }

  lemma EnvironmentFields(w: u32)
    requires IsEnvironment(w)
    ensures Opcode(w) == 0x73 && Funct3(w) == 0
    ensures ImmI(w) == if w == 0x0000_0073 then 0 else if w == 0x0010_0073 then 1
                       else if w == 0x3020_0073 then 0x302 else 0x105
  {
    hide *;
    SelectorFields(w);
    EnvironmentNumbers(w);
  }

  lemma SelectorFields(w: u32)
    ensures Opcode(w) == w % 0x80 && Funct3(w) == w / 0x1000 % 8 && ImmI(w) == w / 0x10_0000
  {
    hide Opcode, Funct3, ImmI;
    FieldsAtLiterals(w);
  }

  lemma EnvironmentNumbers(w: u32)
    requires IsEnvironment(w)
    ensures w % 0x80 == 0x73 && w / 0x1000 % 8 == 0
    ensures w / 0x10_0000 == if w == 0x0000_0073 then 0 else if w == 0x0010_0073 then 1
                             else if w == 0x3020_0073 then 0x302 else 0x105
  {
  }

  /** The operation of a CSR instruction, and whether its source is an immediate. */
  function CsrForm(funct3: u32): Option<(Isa.CsrOp, bool)> {
    match funct3
    case 1 => Some((Isa.RW, false))
    case 2 => Some((Isa.RS, false))
    case 3 => Some((Isa.RC, false))
    case 5 => Some((Isa.RW, true))
    case 6 => Some((Isa.RS, true))
    case 7 => Some((Isa.RC, true))
    case _ => None
  }

  lemma HartCsr(h: Hart, w: u32, host: Host)
    requires h.Valid() && w % 0x80 == 0x73 && Isa.Decode(w).Some? && !IsEnvironment(w)
    ensures var f, rs1, o := CsrForm(w / 0x1000 % 8), w / 0x8000 % 0x20, Isa.Perform(h, Isa.Decode(w).value, host);
      && f.Some? && (Deviates(h, w) <==> LayoutI(w) !in Isa.IMPLEMENTED_CSRS)
      && o == if LayoutI(w) !in Isa.IMPLEMENTED_CSRS then Isa.AbsentCsr
              else Isa.Next(Isa.PerformCsr(h, f.value.0, w / 0x80 % 0x20, LayoutI(w),
                                           if f.value.1 then rs1 else h.X(rs1), rs1 == 0))
  {
    hide LayoutS, LayoutB, LayoutJ, LayoutU, Extend, Isa.PerformCsr;
  }

  lemma CsrExecutes(s: Cpu, w: u32, host: Host)
    requires s.Valid() && w % 0x80 == 0x73 && CsrForm(w / 0x1000 % 8).Some?
    ensures Execute(s, w, host) == ExecuteCsr(s, w)
  {
    hide Execute, ExecuteCsr, And, Opcode, Funct3, ImmI, CsrForm;
    Executes(s, w, host);
    SelectorFields(w);
    CsrSelector(w / 0x1000 % 8);
  }

  lemma WritingBackTheSame(c: Ctl, csr: u32)
    ensures WriteCsr(c, csr, ReadCsr(c, csr)) == c
  {
  }

  lemma MaskOfZero(prior: u32)
    ensures Or32(prior, 0) == prior && And(prior, Not32(0)) == prior
  {
    hide And, Pow2;
    Pow2Values();
    AndLowMask(prior, 32);
  }

  /** The value written is the manual's, and a set or clear from a zero source writes back what it read. */
  lemma CsrAgrees(s: Cpu, w: u32, op: Isa.CsrOp, immediate: bool, rd: nat, rs1: nat)
    requires s.Valid() && s.r[0] == 0 && rd < 32 && rs1 < 32
    requires Rd(w) == rd && Rs1(w) == rs1 && CsrForm(Funct3(w)) == Some((op, immediate))
    ensures Isa.PerformCsr(Abs(s), op, rd, ImmI(w), if immediate then rs1 else s.r[rs1], rs1 == 0)
         == Abs(ExecuteCsr(s, w))
  {
    hide Rd, Rs1, Funct3, ImmI, ReadCsr, WriteCsr, And, Or32, Not32, Isa.FromBits32, Wrap;
    var prior := ReadCsr(s.ctl, ImmI(w));
    var v := if immediate then rs1 else s.r[rs1];
    LogicAgrees(prior, v);
    LogicAgrees(prior, Not32(v));
    MaskOfZero(prior);
    WritingBackTheSame(s.ctl, ImmI(w));
    assert CsrWritten(Funct3(w), prior, s.r[rs1], rs1) == Some(Isa.Modified(op, prior, v));
    WritesAgree(s.(ctl := WriteCsr(s.ctl, ImmI(w), Isa.Modified(op, prior, v))), rd, prior);
  }

  lemma CsrSelector(funct3: u32)
    requires CsrForm(funct3).Some?
    ensures funct3 != 0 && And(funct3, 3) != 0
  {
    hide And;
    AndLowMask(funct3, 2);
  }

  lemma CsrMatches(s: Cpu, w: u32, host: Host)
    requires s.Valid() && s.r[0] == 0 && Isa.Decode(w).Some? && w % 0x80 == 0x73 && !IsEnvironment(w)
    ensures Matches(s, w, host)
  {
    hide *;
    HartCsr(Abs(s), w, host);
    CsrExecutes(s, w, host);
    MatchesMeans(s, w, host);
    FieldsAtLiterals(w);
    var (op, immediate) := CsrForm(w / 0x1000 % 8).value;
    Executes(s, w, host);
    ReadsAgree(s, w / 0x8000 % 0x20);
    CsrAgrees(s, w, op, immediate, w / 0x80 % 0x20, w / 0x8000 % 0x20);
  }

  /** A CSR that the platform lacks reads as zero and takes no write, and the program goes on. */
  lemma AbsentCsrReadsZero(s: Cpu, w: u32, host: Host)
    requires s.Valid() && w % 0x80 == 0x73 && CsrForm(w / 0x1000 % 8).Some? && w / 0x10_0000 !in Isa.IMPLEMENTED_CSRS
    ensures Execute(s, w, host) == Next(SetReg(s, w / 0x80 % 0x20, 0))
  {
    hide Execute, And, Or32, Not32, Opcode, Rd, Rs1, Funct3, ImmI, LayoutI;
    CsrExecutes(s, w, host);
    SelectorFields(w);
    FieldsAtLiterals(w);
  }

  // ----- FENCE -----

  /** FENCE, which orders nothing on a single hart, stops the emulator as an invalid instruction. */
  lemma FenceIsRejected(s: Cpu, w: u32, host: Host)
    requires s.Valid() && w % 0x80 == 0x0f
    ensures Execute(s, w, host) == Stop(s, InvalidInstruction)
    ensures w / 0x1000 % 8 == 0 ==> Isa.Decode(w) == Some(Isa.Fence) && Departs(s, w, host)
  {
    hide Execute;
    Executes(s, w, host);
    if w / 0x1000 % 8 == 0 { assert Abs(s).Advance().ctl.pc != Abs(Stop(s, InvalidInstruction)).ctl.pc; }
  }

  lemma FenceMatches(s: Cpu, w: u32, host: Host)
    requires s.Valid() && Isa.Decode(w).Some? && w % 0x80 == 0x0f
    ensures Matches(s, w, host)
  {
    hide Execute, Isa.Perform;
    FenceIsRejected(s, w, host);
  }

  // ----- every other word -----

  /** The word with the fields cleared that the core does not look at: funct7 of most OP words and of slli,
      funct3 of jalr, rd and rs1 of the environment words. */
  function Canonical(w: u32): u32 {
    var funct3, funct7 := w / 0x1000 % 8, w / 0x200_0000;
    match w % 0x80
    case 0x33 => if funct7 == 1 || funct3 in {0, 5} then w else w % 0x200_0000
    case 0x13 => if funct3 == 1 then w % 0x200_0000 else w
    case 0x67 => w - funct3 * 0x1000
    case 0x73 => if funct3 == 0 then w / 0x10_0000 * 0x10_0000 + 0x73 else w
    case _ => w
  }

  /** A word put together from its fields. */
  function Packed(opcode: nat, rd: nat, funct3: nat, rs1: nat, rs2: nat, funct7: nat): nat {
    opcode + 0x80 * (rd + 0x20 * (funct3 + 8 * (rs1 + 0x20 * (rs2 + 0x20 * funct7))))
  }

  lemma Unpacked(opcode: nat, rd: nat, funct3: nat, rs1: nat, rs2: nat, funct7: nat)
    requires opcode < 0x80 && rd < 0x20 && funct3 < 8 && rs1 < 0x20 && rs2 < 0x20
    ensures var w := Packed(opcode, rd, funct3, rs1, rs2, funct7);
      && w % 0x80 == opcode && w / 0x80 % 0x20 == rd && w / 0x1000 % 8 == funct3 && w / 0x8000 % 0x20 == rs1
      && w / 0x10_0000 % 0x20 == rs2 && w / 0x200_0000 == funct7 && w / 0x10_0000 == rs2 + 0x20 * funct7
  {
    var w := Packed(opcode, rd, funct3, rs1, rs2, funct7);
    DivideTwice(w, 0x80, 0x20);
    DivideTwice(w, 0x1000, 8);
    DivideTwice(w, 0x8000, 0x20);
    DivideTwice(w, 0x10_0000, 0x20);
  }

  lemma Repacked(w: u32)
    ensures w == Packed(w % 0x80, w / 0x80 % 0x20, w / 0x1000 % 8, w / 0x8000 % 0x20, w / 0x10_0000 % 0x20,
                        w / 0x200_0000)
  {
    DivideTwice(w, 0x80, 0x20);
    DivideTwice(w, 0x1000, 8);
    DivideTwice(w, 0x8000, 0x20);
    DivideTwice(w, 0x10_0000, 0x20);
  }

  lemma ClearedFunct7(w: u32)
    ensures var v := w % 0x200_0000;
      && v % 0x80 == w % 0x80 && v / 0x80 % 0x20 == w / 0x80 % 0x20 && v / 0x1000 % 8 == w / 0x1000 % 8
      && v / 0x8000 % 0x20 == w / 0x8000 % 0x20 && v / 0x10_0000 % 0x20 == w / 0x10_0000 % 0x20
      && v / 0x200_0000 == 0
  {
    Repacked(w);
    var a, b, c, d, e := w % 0x80, w / 0x80 % 0x20, w / 0x1000 % 8, w / 0x8000 % 0x20, w / 0x10_0000 % 0x20;
    Unpacked(a, b, c, d, e, 0);
    assert w % 0x200_0000 == Packed(a, b, c, d, e, 0);
  }

  lemma ClearedFunct3(w: u32)
    ensures var v := w - w / 0x1000 % 8 * 0x1000;
      && v % 0x80 == w % 0x80 && v / 0x80 % 0x20 == w / 0x80 % 0x20 && v / 0x1000 % 8 == 0
      && v / 0x8000 % 0x20 == w / 0x8000 % 0x20 && v / 0x10_0000 == w / 0x10_0000
  {
    Repacked(w);
    var a, b, d, e, g := w % 0x80, w / 0x80 % 0x20, w / 0x8000 % 0x20, w / 0x10_0000 % 0x20, w / 0x200_0000;
    Unpacked(a, b, 0, d, e, g);
    Unpacked(a, b, w / 0x1000 % 8, d, e, g);
  }

  lemma ClearedRegisters(w: u32)
    requires w % 0x80 == 0x73
    ensures var v := w / 0x10_0000 * 0x10_0000 + 0x73;
      v < TWO_32 && v % 0x80 == 0x73 && v / 0x1000 % 8 == 0 && v / 0x10_0000 == w / 0x10_0000
  {
    var i := w / 0x10_0000;
    Unpacked(0x73, 0, 0, 0, i % 0x20, i / 0x20);
    assert i * 0x10_0000 + 0x73 == Packed(0x73, 0, 0, 0, i % 0x20, i / 0x20);
  }

  lemma SameOp(s: Cpu, w: u32, v: u32, host: Host)
    requires s.Valid() && w % 0x80 == v % 0x80 == 0x33 && w / 0x80 % 0x20 == v / 0x80 % 0x20
    requires w / 0x8000 % 0x20 == v / 0x8000 % 0x20 && w / 0x10_0000 % 0x20 == v / 0x10_0000 % 0x20
    requires w / 0x1000 % 8 == v / 0x1000 % 8
    requires RegisterOp(w / 0x1000 % 8, w / 0x200_0000, s.r[w / 0x8000 % 0x20], s.r[w / 0x10_0000 % 0x20])
          == RegisterOp(v / 0x1000 % 8, v / 0x200_0000, s.r[w / 0x8000 % 0x20], s.r[w / 0x10_0000 % 0x20])
    ensures Execute(s, w, host) == Execute(s, v, host)
  {
    hide *;
    Executes(s, w, host);
    Executes(s, v, host);
    SameDestination(s, w, v, RegisterOp(w / 0x1000 % 8, w / 0x200_0000,
                                        s.r[w / 0x8000 % 0x20], s.r[w / 0x10_0000 % 0x20]));
  }

  lemma OpIgnoresFunct7(s: Cpu, w: u32, host: Host)
    requires s.Valid() && w % 0x80 == 0x33 && w / 0x200_0000 != 1 && w / 0x1000 % 8 !in {0, 5}
    ensures Execute(s, w, host) == Execute(s, w % 0x200_0000, host)
  {
    hide Execute, And, Or32, Xor32, Shl, Shr, Signed;
    ClearedFunct7(w);
    SameOp(s, w, w % 0x200_0000, host);
  }

  lemma SameDestination(s: Cpu, w: u32, v: u32, result: Option<u32>)
    requires s.Valid() && w / 0x80 % 0x20 == v / 0x80 % 0x20
    ensures WriteBack(s, w, result) == WriteBack(s, v, result)
  {
    hide Rd, Opcode, Rs1, Rs2, Funct3, Funct7, ImmI, ImmU, LayoutI, LayoutU;
    FieldsAtLiterals(w);
    FieldsAtLiterals(v);
  }

  lemma SameShift(s: Cpu, w: u32, v: u32, host: Host)
    requires s.Valid() && w % 0x80 == v % 0x80 == 0x13 && w / 0x80 % 0x20 == v / 0x80 % 0x20
    requires w / 0x8000 % 0x20 == v / 0x8000 % 0x20
    requires ImmediateOp(w, s.r[w / 0x8000 % 0x20]) == ImmediateOp(v, s.r[w / 0x8000 % 0x20])
    ensures Execute(s, w, host) == Execute(s, v, host)
  {
    hide *;
    Executes(s, w, host);
    Executes(s, v, host);
    SameDestination(s, w, v, ImmediateOp(w, s.r[w / 0x8000 % 0x20]));
  }

  lemma SlliIgnoresFunct7(s: Cpu, w: u32, host: Host)
    requires s.Valid() && w % 0x80 == 0x13 && w / 0x1000 % 8 == 1
    ensures Execute(s, w, host) == Execute(s, w % 0x200_0000, host)
  {
    hide Execute;
    ClearedFunct7(w);
    SlliReadsShamt(w, s.r[w / 0x8000 % 0x20]);
    SlliReadsShamt(w % 0x200_0000, s.r[w / 0x8000 % 0x20]);
    SameShift(s, w, w % 0x200_0000, host);
  }

  lemma SlliReadsShamt(w: u32, a: u32)
    requires w / 0x1000 % 8 == 1
    ensures ImmediateOp(w, a) == Some(Shl(a, w / 0x10_0000 % 0x20))
  {
    hide And, Shl, Opcode, Rd, Rs1, Rs2, Funct3, Funct7, ImmI, ImmU;
    FieldsAtLiterals(w);
    ShamtIsResidue(ImmI(w));
  }

  lemma SameJalr(s: Cpu, w: u32, v: u32, host: Host)
    requires s.Valid() && w % 0x80 == v % 0x80 == 0x67 && w / 0x80 % 0x20 == v / 0x80 % 0x20
    requires w / 0x8000 % 0x20 == v / 0x8000 % 0x20 && LayoutI(w) == LayoutI(v)
    ensures Execute(s, w, host) == Execute(s, v, host)
  {
    hide *;
    ExecutesJump(s, w, host);
    ExecutesJump(s, v, host);
    SignedImmediates(w);
    SignedImmediates(v);
  }

  lemma JalrIgnoresFunct3(s: Cpu, w: u32, host: Host)
    requires s.Valid() && w % 0x80 == 0x67
    ensures Execute(s, w, host) == Execute(s, w - w / 0x1000 % 8 * 0x1000, host)
  {
    hide *;
    ClearedFunct3(w);
    SameLayout(w, w - w / 0x1000 % 8 * 0x1000);
    SameJalr(s, w, w - w / 0x1000 % 8 * 0x1000, host);
  }

  lemma SameLayout(w: u32, v: u32)
    requires w / 0x10_0000 == v / 0x10_0000
    ensures LayoutI(w) == LayoutI(v)
  {
  }

  lemma SameEnvironment(s: Cpu, w: u32, v: u32, host: Host)
    requires s.Valid() && w % 0x80 == v % 0x80 == 0x73 && w / 0x1000 % 8 == v / 0x1000 % 8 == 0
    requires w / 0x10_0000 == v / 0x10_0000
    ensures Execute(s, w, host) == Execute(s, v, host)
  {
    hide Execute, Opcode, Funct3, ImmI, Ecall, Mret;
    Executes(s, w, host);
    Executes(s, v, host);
    SelectorFields(w);
    SelectorFields(v);
  }

  lemma EnvironmentIgnoresRegisters(s: Cpu, w: u32, host: Host)
    requires s.Valid() && w % 0x80 == 0x73 && w / 0x1000 % 8 == 0
    ensures Execute(s, w, host) == Execute(s, w / 0x10_0000 * 0x10_0000 + 0x73, host)
  {
    hide *;
    ClearedRegisters(w);
    SameEnvironment(s, w, w / 0x10_0000 * 0x10_0000 + 0x73, host);
  }

  /** The core executes every word as its canonical one, and stops as an invalid instruction where that is
      none of the hart's.  With ExecuteMatches this says what it does on all words. */
  lemma EveryWord(s: Cpu, w: u32, host: Host)
    requires s.Valid()
    ensures Execute(s, w, host) == Execute(s, Canonical(w), host)
    ensures Isa.Decode(Canonical(w)).None? ==> Execute(s, w, host) == Stop(s, InvalidInstruction)
  {
    hide Execute, Isa.Decode;
    if w % 0x80 == 0x33 && w / 0x200_0000 != 1 && w / 0x1000 % 8 !in {0, 5} { OpIgnoresFunct7(s, w, host); }
    else if w % 0x80 == 0x13 && w / 0x1000 % 8 == 1 { SlliIgnoresFunct7(s, w, host); }
    else if w % 0x80 == 0x67 { JalrIgnoresFunct3(s, w, host); }
    else if w % 0x80 == 0x73 && w / 0x1000 % 8 == 0 { EnvironmentIgnoresRegisters(s, w, host); }
    if Isa.Decode(Canonical(w)).None? { CanonicalStops(s, w, host); }
  }

  lemma CanonicalTwice(w: u32)
    ensures Canonical(Canonical(w)) == Canonical(w)
  {
    ClearedFunct7(w);
    ClearedFunct3(w);
    if w % 0x80 == 0x73 {
      ClearedRegisters(w);
      ClearedRegisters(w / 0x10_0000 * 0x10_0000 + 0x73);
    }
  }

  lemma CanonicalStops(s: Cpu, w: u32, host: Host)
    requires s.Valid() && Isa.Decode(Canonical(w)).None?
    ensures Execute(s, Canonical(w), host) == Stop(s, InvalidInstruction)
  {
    hide Execute, Canonical, Isa.Decode;
    var v := Canonical(w);
    CanonicalTwice(w);
    if v % 0x80 in {0x33, 0x13} { ComputingStops(s, v, host); }
    else if v % 0x80 in {0x03, 0x23, 0x63} { AccessStops(s, v, host); }
    else if v % 0x80 == 0x73 { SystemStops(s, v, host); }
    else { OtherStops(s, v, host); }
  }

  lemma ComputingStops(s: Cpu, v: u32, host: Host)
    requires s.Valid() && Isa.Decode(v).None? && Canonical(v) == v && v % 0x80 in {0x33, 0x13}
    ensures Execute(s, v, host) == Stop(s, InvalidInstruction)
  {
    hide Execute, And, Or32, Xor32, Shl, Shr, Wrap, Alu.Sar, Signed, Opcode, Rd, Rs1, Rs2, Funct3, Funct7, ImmI, ImmU,
         SExtImmI, LayoutI, LayoutU, Extend, MulDiv;
    FieldsAtLiterals(v);
    Executes(s, v, host);
  }

  lemma AccessStops(s: Cpu, v: u32, host: Host)
    requires s.Valid() && Isa.Decode(v).None? && v % 0x80 in {0x03, 0x23, 0x63}
    ensures Execute(s, v, host) == Stop(s, InvalidInstruction)
  {
    hide Execute, Opcode, Rd, Rs1, Rs2, Funct3, Funct7, ImmI, ImmU, SExtImmI, SExtImmS, SExtImmB, LayoutI, LayoutS,
         LayoutB, LayoutU, Extend, Load, Store, Wrap;
    FieldsAtLiterals(v);
    Executes(s, v, host);
  }

  lemma SystemStops(s: Cpu, v: u32, host: Host)
    requires s.Valid() && Isa.Decode(v).None? && Canonical(v) == v && v % 0x80 == 0x73
    ensures Execute(s, v, host) == Stop(s, InvalidInstruction)
  {
    hide Execute, Opcode, Funct3, ImmI, Ecall, Mret, And, ExecuteCsr;
    Executes(s, v, host);
    SelectorFields(v);
    SelectorIsTwoBits(v / 0x1000 % 8);
  }

  lemma SelectorIsTwoBits(funct3: u32)
    requires funct3 < 8
    ensures And(funct3, 3) == funct3 % 4
  {
    hide And, Pow2;
    Pow2Values();
    AndLowMask(funct3, 2);
  }

  lemma OtherStops(s: Cpu, v: u32, host: Host)
    requires s.Valid() && Isa.Decode(v).None? && Canonical(v) == v && v % 0x80 !in {0x33, 0x13, 0x03, 0x23, 0x63, 0x73}
    ensures Execute(s, v, host) == Stop(s, InvalidInstruction)
  {
    hide Opcode, ExecuteSystem, ExecuteLoad, ExecuteStore, ExecuteBranch, RegisterOp, ImmediateOp;
    SelectorFields(v);
  }

  // ----- x0 -----

  /** lui x0, 1: the result is left in r[0], where the debugger sees it, until the next instruction. */
  lemma ZeroHoldsResult(s: Cpu, host: Host)
    requires s.Valid()
    ensures Execute(s, 0x0000_1037, host) == Next(s.(r := s.r[0 := 0x1000]))
  {
    hide Execute, LayoutU, Shl, SExtImmU, Wrap, Next;
    ExecutesJump(s, 0x0000_1037, host);
    UpperImmediate(0x0000_1037);
    UpperNumbers();
  }

  lemma UpperNumbers()
    ensures 0x0000_1037 % 0x80 == 0x37 && 0x0000_1037 / 0x80 % 0x20 == 0
    ensures Wrap(LayoutU(0x0000_1037) * 0x1000) == 0x1000
  {
  }

  // ----- words on which the core departs -----

  /** sltiu x6, x5, -1; jal x0, 0x80000; mret; jal x0, 2; csrrw x5, mscratch, x6; fence. */
  const SLTIU_WORD: u32 := 0xfff2_b313
  const JAL_WORD: u32 := 0x0008_006f
  const MRET_WORD: u32 := 0x3020_0073
  const ODD_JUMP_WORD: u32 := 0x0020_006f
  const MSCRATCH_WORD: u32 := 0x3403_12f3
  const FENCE_WORD: u32 := 0x0ff0_000f

  predicate Departs(s: Cpu, w: u32, host: Host)
    requires s.Valid()
  {
    Isa.Decode(w).Some? && Isa.Perform(Abs(s), Isa.Decode(w).value, host) != Isa.Next(Abs(Execute(s, w, host)))
  }

  /** Each of them on any machine: exactly which states make it depart. */
  lemma WordsThatDepart(s: Cpu, host: Host)
    requires s.Valid() && s.r[0] == 0
    ensures Departs(s, SLTIU_WORD, host) <==> 0xfff <= s.r[5] < 0xffff_ffff
    ensures Departs(s, JAL_WORD, host)
    ensures Departs(s, MRET_WORD, host) <==> !Bit(s.ctl.mstatus, 7)
    ensures Departs(s, ODD_JUMP_WORD, host) <==> Wrap(s.ctl.pc + 2) % 4 != 0
    ensures Departs(s, MSCRATCH_WORD, host) && Departs(s, FENCE_WORD, host)
  {
    hide Departs, Deviates, Isa.Decode, Bit, Abs;
    DepartsMeans(s, SLTIU_WORD, host);
    DepartsMeans(s, JAL_WORD, host);
    DepartsMeans(s, MRET_WORD, host);
    DepartsMeans(s, ODD_JUMP_WORD, host);
    DepartsMeans(s, MSCRATCH_WORD, host);
    DepartsMeans(s, FENCE_WORD, host);
    DecodesWords();
    DecodesMoreWords();
    DeviatingWords(s);
    MoreDeviatingWords(s);
  }

  lemma DeviatingWords(s: Cpu)
    requires s.Valid() && s.r[0] == 0
    ensures Deviates(Abs(s), SLTIU_WORD) <==> 0xfff <= s.r[5] < 0xffff_ffff
    ensures Deviates(Abs(s), JAL_WORD)
    ensures Deviates(Abs(s), MRET_WORD) <==> !Bit(s.ctl.mstatus, 7)
  {
    hide Isa.Decode, Bit, LayoutI, SignBitsAgree;
    DecodesWords();
    ReadsAgree(s, 5);
  }

  lemma MoreDeviatingWords(s: Cpu)
    requires s.Valid()
    ensures Deviates(Abs(s), ODD_JUMP_WORD) <==> Wrap(s.ctl.pc + 2) % 4 != 0
    ensures Deviates(Abs(s), MSCRATCH_WORD) && Deviates(Abs(s), FENCE_WORD)
  {
    hide Isa.Decode, SignBitsAgree;
    DecodesMoreWords();
  }

  lemma DepartsMeans(s: Cpu, w: u32, host: Host)
    requires s.Valid() && s.r[0] == 0
    ensures Departs(s, w, host) <==> Isa.Decode(w).Some? && Deviates(Abs(s), w)
  {
    hide Isa.Perform, Execute, Isa.Decode, Deviates, Abs;
    if Isa.Decode(w).Some? { ExecuteMatches(s, w, host); }
  }

  lemma DecodesWords()
    ensures Isa.Decode(SLTIU_WORD) == Some(Isa.OpImm(Isa.SLTU, 6, 5, -1)) && LayoutI(SLTIU_WORD) == 0xfff
    ensures Isa.Decode(JAL_WORD) == Some(Isa.Jal(0, 0x8_0000)) && !SignBitsAgree(JAL_WORD)
    ensures Isa.Decode(MRET_WORD) == Some(Isa.Mret)
  {
  }

  lemma DecodesMoreWords()
    ensures Isa.Decode(ODD_JUMP_WORD) == Some(Isa.Jal(0, 2)) && SignBitsAgree(ODD_JUMP_WORD)
    ensures Isa.Decode(MSCRATCH_WORD) == Some(Isa.Csr(Isa.RW, 5, 0x340, false, 6))
    ensures Isa.Decode(FENCE_WORD) == Some(Isa.Fence)
  {
  }

  /** All of them do so on a machine out of reset, once x5 holds 0x1000. */
  lemma DepartsFromReset(ram: seq<u8>, host: Host)
    requires RamSize(ram)
    ensures var s := SetReg(ResetState(ram), 5, 0x1000);
      && Departs(s, SLTIU_WORD, host) && Departs(s, JAL_WORD, host) && Departs(s, MRET_WORD, host)
      && Departs(s, ODD_JUMP_WORD, host) && Departs(s, MSCRATCH_WORD, host) && Departs(s, FENCE_WORD, host)
  {
    hide Departs;
    var s := SetReg(ResetState(ram), 5, 0x1000);
    BitOfZero(MPIE);
    WordsThatDepart(s, host);
  }

  // ----- one cycle -----

  /** One instruction: the core and the hart do the same exactly when Deviates does not hold. */
  lemma ExecuteMatches(s: Cpu, w: u32, host: Host)
    requires s.Valid() && s.r[0] == 0 && Isa.Decode(w).Some?
    ensures Matches(s, w, host)
  {
    hide Matches;
    var opcode := w % 0x80;
    if opcode == 0x33 { OpMatches(s, w, host); }
    else if opcode == 0x13 { OpImmMatches(s, w, host); }
    else if opcode == 0x03 { LoadMatches(s, w, host); }
    else if opcode == 0x23 { StoreMatches(s, w, host); }
    else if opcode == 0x63 { BranchMatches(s, w, host); }
    else if opcode == 0x6f { JalMatches(s, w, host); }
    else if opcode == 0x67 { JalrMatches(s, w, host); }
    else if opcode == 0x37 { LuiMatches(s, w, host); }
    else if opcode == 0x17 { AuipcMatches(s, w, host); }
    else if opcode == 0x0f { FenceMatches(s, w, host); }
    else if IsEnvironment(w) { EnvironmentMatches(s, w, host); }
    else { OnlySystemIsLeft(w); CsrMatches(s, w, host); }
  }

  lemma OnlySystemIsLeft(w: u32)
    requires Isa.Decode(w).Some? && w % 0x80 !in {0x33, 0x13, 0x03, 0x23, 0x63, 0x6f, 0x67, 0x37, 0x17, 0x0f}
    ensures w % 0x80 == 0x73
  {
  }

  /** The hart wakes from wfi where the core waits on, or performs a word on which the core departs. */
  predicate StepDeviates(h: Hart, host: Host)
    requires h.Valid()
  {
    var g := h.(ctl := Prelude(h.ctl));
    || Isa.Wakes(g.ctl)
    || (&& g.ctl.status == Running && !g.ctl.wfi && g.ctl.pc !in Breakpoints.Listed(g.ctl)
        && match Isa.Read(Word, g, host, g.ctl.pc) {
             case None => false
             case Some(w) => Deviates(g, w)
           })
  }

  /** An instruction that leaves wfi set is wfi itself, and moves on. */
  lemma WaitMovesOn(h: Hart, i: Isa.Instr, host: Host)
    requires h.Valid() && i.Registers() && !h.ctl.wfi
    ensures var o := Isa.Perform(h, i, host); o.Next? && o.hart.ctl.wfi ==> o.hart.ctl.pc != h.ctl.pc
  {
    hide Isa.Value, Isa.Holds, Isa.Read, Isa.Sized, Isa.Modified, Isa.FromBits32, Splice;
  }

  lemma WokenDiffers(s: Cpu, host: Host)
    requires s.Valid() && Isa.Wakes(Prelude(s.ctl))
    ensures Isa.Step(Abs(s), host) != Isa.Next(Abs(Cycle(s, host)))
  {
    hide Prelude, BreakpointHit, Isa.Read, Isa.Perform, Isa.Decode, Execute, Load32, Interrupts.Bits,
         Breakpoints.Listed;
    var p := s.(ctl := Prelude(s.ctl));
    assert Cycle(s, host) == p;
    var g := Isa.Woken(Abs(s).(ctl := Prelude(s.ctl)));
    match Isa.Read(Word, g, host, g.ctl.pc)
    case None =>
    case Some(w) => if Isa.Decode(w).Some? { WaitMovesOn(g, Isa.Decode(w).value, host); }
  }

  lemma FetchAgrees(s: Cpu, host: Host)
    requires s.Valid()
    ensures Isa.Read(Word, Abs(s), host, s.ctl.pc) == Load32(s.mem, s.ctl.ie, host, s.ctl.pc)
  {
    hide Isa.Read, Load32;
    ReadAgrees(Word, s, host, s.ctl.pc);
  }

  /** x0 reads as zero whatever the lazily cleared r[0] holds. */
  lemma ClearingIsInvisible(s: Cpu)
    requires s.Valid()
    ensures Abs(SetReg(s, 0, 0)) == Abs(s) && SetReg(s, 0, 0).r[0] == 0
  {
    WritesAgree(s, 0, 0);
  }

  /** Every cycle that meets a legal encoding is the hart's step, exactly unless it deviates. */
  lemma CycleMatches(s: Cpu, host: Host)
    requires s.Valid() && !Isa.Step(Abs(s), host).Reserved?
    ensures Isa.Step(Abs(s), host) == Isa.Next(Abs(Cycle(s, host))) <==> !StepDeviates(Abs(s), host)
  {
    hide Prelude, BreakpointHit, Isa.Read, Load32, Execute, Isa.Perform, Isa.Decode, Deviates, Breakpoints.Listed;
    var p := s.(ctl := Prelude(s.ctl));
    Breakpoints.HitIsListed(p.ctl);
    assert Abs(s).(ctl := Prelude(s.ctl)) == Abs(p);
    if Isa.Wakes(p.ctl) {
      WokenDiffers(s, host);
      return;
    }
    FetchAgrees(p, host);
    ClearingIsInvisible(p);
    if !Stalled(p.ctl) && !BreakpointHit(p.ctl) {
      match Load32(p.mem, p.ctl.ie, host, p.ctl.pc)
      case None =>
      case Some(w) =>
        if Isa.Decode(w).Some? { ExecuteMatches(SetReg(p, 0, 0), w, host); }
    }
  }

  /** A waiting core with no trap due steps as the hart exactly when no interrupt that mie enables is pending:
      it waits for the trap, where the manual resumes even with MIE clear. */
  lemma WaitMatches(s: Cpu, host: Host)
    requires s.Valid() && s.ctl.wfi && s.ctl.status == Running && !Interrupts.TrapDue(s.ctl)
    ensures Isa.Step(Abs(s), host) == Isa.Next(Abs(Cycle(s, host)))
        <==> Interrupts.Bits(s.ctl.mie) * Interrupts.Bits(s.ctl.mip) == {}
  {
    hide Prelude, Interrupts.Bits, Interrupts.TrapDue, Execute, Isa.Perform;
    Interrupts.NoTrap(s.ctl);
    if Isa.Wakes(s.ctl) { WokenDiffers(s, host); }
  }

  /** A core that waits with MIE clear and an external interrupt enabled and pending. */
  function Sleeper(ram: seq<u8>): (s: Cpu)
    requires RamSize(ram)
    ensures s.Valid()
  {
    var s := ResetState(ram);
    s.(ctl := s.ctl.(status := Running, wfi := true, mie := 0x800, mip := 0x800))
  }

  lemma WaitDeparts(ram: seq<u8>, host: Host)
    requires RamSize(ram)
    ensures Isa.Step(Abs(Sleeper(ram)), host) != Isa.Next(Abs(Cycle(Sleeper(ram), host)))
  {
    hide Interrupts.Bits, Cycle, Isa.Step;
    var c := Sleeper(ram).ctl;
    Pow2Values();
    Interrupts.BitsOfShlOne(MEI);
    Interrupts.BitsOfZero();
    assert MEI in Interrupts.Bits(c.mie) * Interrupts.Bits(c.mip);
    WaitMatches(Sleeper(ram), host);
  }

  // ----- runs -----

  function HandleHart(h: Hart, e: Event): (o: Isa.Outcome)
    requires h.Valid()
    ensures o.Next? ==> o.hart.Valid()
  {
    match e
    case Tick(host) => Isa.Step(h, host)
    case Irq(line) => Isa.Next(h.(ctl := Trigger(h.ctl, line)))
    case Continue => Isa.Next(if h.ctl.status == Paused then h.Halt(Running) else h)
    case Interrupt => Isa.Next(h.Halt(Paused))
    case SetBp(addr) => Isa.Next(h.(ctl := SetBreakpoint(h.ctl, addr).0))
    case ClearBp(addr) => Isa.Next(h.(ctl := ClearBreakpoint(h.ctl, addr).0))
    case ClearAllBps => Isa.Next(h.(ctl := ClearAllBreakpoints(h.ctl)))
    case Write(image) =>
      if |image.r| == 32 && |image.mem| == |h.mem| then
        Isa.Next(h.(x := image.r[1..], mem := image.mem).Goto(image.pc))
      else Isa.Next(h)
    case Reset =>
      var zeros := [0, 0, 0, 0, 0, 0, 0, 0];
      Isa.Next(Isa.Hart(Ctl(Paused, 0, zeros, 0, 0, 0, 0, 0, 0, 0, false, 0, 0), seq(31, _ => 0),
                        [0, 0, 0, 0] + h.mem[4..]))
  }

  /** The hart's run, up to the first step that is not a plain continuation. */
  function RunHart(h: Hart, es: seq<Event>): (o: Isa.Outcome)
    requires h.Valid()
    ensures o.Next? ==> o.hart.Valid()
  {
    if es == [] then Isa.Next(h)
    else
      match RunHart(h, es[..|es| - 1])
      case Next(g) => HandleHart(g, es[|es| - 1])
      case other => other
  }

  /** Every step of the hart's run is on a legal encoding and does not deviate. */
  predicate Conforms(h: Hart, es: seq<Event>)
    requires h.Valid()
  {
    es == [] || (
      var front, last := es[..|es| - 1], es[|es| - 1];
      Conforms(h, front)
      && match RunHart(h, front) {
           case Next(g) =>
             last.Tick? ==> !Isa.Step(g, last.host).Reserved? && !StepDeviates(g, last.host)
           case _ => false
         })
  }

  lemma HandleMatches(s: Cpu, e: Event)
    requires s.Valid()
    requires e.Tick? ==> !Isa.Step(Abs(s), e.host).Reserved? && !StepDeviates(Abs(s), e.host)
    ensures HandleHart(Abs(s), e) == Isa.Next(Abs(Handle(s, e)))
  {
    hide Cycle, Isa.Step, StepDeviates, Trigger, SetBreakpoint, ClearBreakpoint, ClearAllBreakpoints;
    if e.Tick? { CycleMatches(s, e.host); }
    if e.Reset? {
      assert Abs(ResetState(s.mem)).x == seq(31, _ => 0);
      assert ResetState(s.mem).ctl.bp == [0, 0, 0, 0, 0, 0, 0, 0];
    }
  }

  /** For every program, start state and interleaving of events: a conforming run of the core is the
      hart's run, under the abstraction that forgets r[0]. */
  lemma {:induction false} RunRefines(s: Cpu, es: seq<Event>)
    requires s.Valid() && Conforms(Abs(s), es)
    ensures RunHart(Abs(s), es) == Isa.Next(Abs(Run(s, es)))
  {
    hide Handle, HandleHart, Isa.Step, StepDeviates, Abs;
    if es != [] {
      RunRefines(s, es[..|es| - 1]);
      HandleMatches(Run(s, es[..|es| - 1]), es[|es| - 1]);
    }
  }

  // ----- both directions over runs -----

  /** The hart's run and the core's are the same at every point. */
  predicate SameThroughout(s: Cpu, es: seq<Event>)
    requires s.Valid()
  {
    forall k :: 0 <= k <= |es| ==> RunHart(Abs(s), es[..k]) == Isa.Next(Abs(Run(s, es[..k])))
  }

  lemma {:induction false} ConformsUpTo(h: Hart, es: seq<Event>, k: nat)
    requires h.Valid() && Conforms(h, es) && k <= |es|
    ensures Conforms(h, es[..k])
    decreases |es|
  {
    hide Isa.Step, StepDeviates, RunHart;
    if k == |es| {
      assert es[..k] == es;
    } else {
      assert es[..|es| - 1][..k] == es[..k];
      ConformsUpTo(h, es[..|es| - 1], k);
    }
  }

  lemma {:induction false} SameConforms(s: Cpu, es: seq<Event>)
    requires s.Valid() && SameThroughout(s, es) && !RunHart(Abs(s), es).Reserved?
    ensures Conforms(Abs(s), es)
    decreases |es|
  {
    hide Isa.Step, StepDeviates, Abs, Handle, Cycle, Run;
    if es != [] {
      var front, last := es[..|es| - 1], es[|es| - 1];
      SamePrefix(s, es);
      SameConforms(s, front);
      SameLast(s, es);
      if last.Tick? { CycleMatches(Run(s, front), last.host); }
    }
  }

  lemma SamePrefix(s: Cpu, es: seq<Event>)
    requires s.Valid() && es != [] && SameThroughout(s, es)
    ensures SameThroughout(s, es[..|es| - 1])
    ensures RunHart(Abs(s), es[..|es| - 1]) == Isa.Next(Abs(Run(s, es[..|es| - 1])))
  {
    hide RunHart, Run, Abs;
    var front := es[..|es| - 1];
    forall k | 0 <= k <= |front| ensures RunHart(Abs(s), front[..k]) == Isa.Next(Abs(Run(s, front[..k]))) {
      assert front[..k] == es[..k];
    }
  }

  lemma SameLast(s: Cpu, es: seq<Event>)
    requires s.Valid() && es != [] && SameThroughout(s, es)
    ensures var u, last := Run(s, es[..|es| - 1]), es[|es| - 1];
      last.Tick? ==> Isa.Step(Abs(u), last.host) == Isa.Next(Abs(Cycle(u, last.host)))
  {
    hide Isa.Step, Abs, Cycle;
    SamePrefix(s, es);
    assert es[..|es|] == es;
  }

  /** On runs that meet no reserved encoding, core and hart are the same at every point exactly when no step
      deviates. */
  lemma RunMatches(s: Cpu, es: seq<Event>)
    requires s.Valid() && !RunHart(Abs(s), es).Reserved?
    ensures SameThroughout(s, es) <==> Conforms(Abs(s), es)
  {
    hide RunHart, Run, Abs, Conforms;
    if Conforms(Abs(s), es) {
      forall k: nat | k <= |es| ensures RunHart(Abs(s), es[..k]) == Isa.Next(Abs(Run(s, es[..k]))) {
        ConformsUpTo(Abs(s), es, k);
        RunRefines(s, es[..k]);
      }
    }
    if SameThroughout(s, es) { SameConforms(s, es); }
  }
}
