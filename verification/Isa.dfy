/**
 An RV32IM + Zicsr hart written from the RISC-V manuals, as the independent
 specification of the core: unprivileged ISA 20191213 chapters 2, 7 and 9, mret
 and wfi of privileged ISA 20211203, x0 hard-wired to zero, results as integers
 and as bits, instructions decoded into a datatype.  The execution environment is
 the emulator's: its RAM and devices, its six CSRs as plain storage, its trap entry
 (compared with the manual's in Interrupts), its debugger, and stopping on access
 faults and ebreak.
 */
module Isa {
  import opened Words
  import opened Immediates
  import opened Memory
  import opened Control
  import Breakpoints
  import Core
  import Interrupts

  datatype Hart = Hart(ctl: Ctl, x: seq<u32>, mem: seq<u8>) {
    predicate Valid() {
      |ctl.bp| == 8 && |x| == 31 && RamSize(mem)
    }

    function X(i: nat): u32
      requires Valid() && i < 32
    {
      if i == 0 then 0 else x[i - 1]
    }

    function SetX(i: nat, v: u32): (h: Hart)
      requires Valid() && i < 32
      ensures h.Valid()
    {
      if i == 0 then this else this.(x := x[i - 1 := v])
    }

    function Goto(pc: u32): Hart {
      this.(ctl := ctl.(pc := pc))
    }

    function Advance(): Hart {
      Goto(Wrap(ctl.pc + 4))
    }

    function Halt(status: Status): Hart {
      this.(ctl := ctl.(status := status))
    }
  }

  /** Misaligned: the instruction-address-misaligned exception.  AbsentCsr: access to a CSR that the platform
      lacks, for which the manuals have a register (mscratch, say) or the illegal-instruction exception.
      Reserved: no instruction of chapters 2, 7 and 9 and machine mode, or a misaligned pc. */
  datatype Outcome = Next(hart: Hart) | Misaligned | AbsentCsr | Reserved

  // ----- instructions -----

  datatype AluOp =
    | ADD | SUB | SLL | SLT | SLTU | XOR | SRL | SRA | OR | AND
    | MUL | MULH | MULHSU | MULHU | DIV | DIVU | REM | REMU

  datatype Condition = EQ | NE | LT | GE | LTU | GEU

  datatype CsrOp = RW | RS | RC

  datatype Instr =
    | Op(op: AluOp, rd: nat, rs1: nat, rs2: nat)
    | OpImm(op: AluOp, rd: nat, rs1: nat, imm: int)
    | LoadTo(width: Width, signed: bool, rd: nat, rs1: nat, imm: int)
    | StoreFrom(width: Width, rs1: nat, rs2: nat, imm: int)
    | Branch(condition: Condition, rs1: nat, rs2: nat, imm: int)
    | Jal(rd: nat, imm: int)
    | Jalr(rd: nat, rs1: nat, imm: int)
    | Lui(rd: nat, imm: int)
    | Auipc(rd: nat, imm: int)
    | Csr(csrop: CsrOp, rd: nat, csr: u32, immediate: bool, rs1: nat)
    | Fence
    | Ecall
    | Ebreak
    | Mret
    | Wfi
  {
    predicate Registers() {
      match this
      case Op(_, rd, rs1, rs2) => rd < 32 && rs1 < 32 && rs2 < 32
      case OpImm(_, rd, rs1, _) => rd < 32 && rs1 < 32
      case LoadTo(_, _, rd, rs1, _) => rd < 32 && rs1 < 32
      case StoreFrom(_, rs1, rs2, _) => rs1 < 32 && rs2 < 32
      case Branch(_, rs1, rs2, _) => rs1 < 32 && rs2 < 32
      case Jal(rd, _) => rd < 32
      case Jalr(rd, rs1, _) => rd < 32 && rs1 < 32
      case Lui(rd, _) => rd < 32
      case Auipc(rd, _) => rd < 32
      case Csr(_, rd, _, _, rs1) => rd < 32 && rs1 < 32
      case _ => true
    }
  }

  function DecodeOp(funct3: nat, funct7: nat): Option<AluOp> {
    match (funct7, funct3)
    case (0, 0) => Some(ADD)
    case (0x20, 0) => Some(SUB)
    case (0, 1) => Some(SLL)
    case (0, 2) => Some(SLT)
    case (0, 3) => Some(SLTU)
    case (0, 4) => Some(XOR)
    case (0, 5) => Some(SRL)
    case (0x20, 5) => Some(SRA)
    case (0, 6) => Some(OR)
    case (0, 7) => Some(AND)
    case (1, 0) => Some(MUL)
    case (1, 1) => Some(MULH)
    case (1, 2) => Some(MULHSU)
    case (1, 3) => Some(MULHU)
    case (1, 4) => Some(DIV)
    case (1, 5) => Some(DIVU)
    case (1, 6) => Some(REM)
    case (1, 7) => Some(REMU)
    case _ => None
  }

  function DecodeOpImm(funct3: nat, funct7: nat): Option<AluOp> {
    match funct3
    case 0 => Some(ADD)
    case 2 => Some(SLT)
    case 3 => Some(SLTU)
    case 4 => Some(XOR)
    case 6 => Some(OR)
    case 7 => Some(AND)
    case 1 => if funct7 == 0 then Some(SLL) else None
    case 5 => if funct7 == 0 then Some(SRL) else if funct7 == 0x20 then Some(SRA) else None
    case _ => None
  }

  function DecodeLoad(funct3: nat): Option<(Width, bool)> {
    match funct3
    case 0 => Some((Byte, true))
    case 1 => Some((Half, true))
    case 2 => Some((Word, true))
    case 4 => Some((Byte, false))
    case 5 => Some((Half, false))
    case _ => None
  }

  function DecodeStore(funct3: nat): Option<Width> {
    match funct3
    case 0 => Some(Byte)
    case 1 => Some(Half)
    case 2 => Some(Word)
    case _ => None
  }

  function DecodeBranch(funct3: nat): Option<Condition> {
    match funct3
    case 0 => Some(EQ)
    case 1 => Some(NE)
    case 4 => Some(LT)
    case 5 => Some(GE)
    case 6 => Some(LTU)
    case 7 => Some(GEU)
    case _ => None
  }

  /** The CSRs that the platform has; chapter 9 decodes any number. */
  const IMPLEMENTED_CSRS: set<u32> := {0x300, 0x304, 0x305, 0x341, 0x342, 0x344}

  function DecodeSystem(w: u32, funct3: nat, rd: nat, rs1: nat): Option<Instr> {
    if w == 0x0000_0073 then Some(Ecall)
    else if w == 0x0010_0073 then Some(Instr.Ebreak)
    else if w == 0x3020_0073 then Some(Mret)
    else if w == 0x1050_0073 then Some(Wfi)
    else match funct3
      case 1 => Some(Csr(RW, rd, w / 0x10_0000, false, rs1))
      case 2 => Some(Csr(RS, rd, w / 0x10_0000, false, rs1))
      case 3 => Some(Csr(RC, rd, w / 0x10_0000, false, rs1))
      case 5 => Some(Csr(RW, rd, w / 0x10_0000, true, rs1))
      case 6 => Some(Csr(RS, rd, w / 0x10_0000, true, rs1))
      case 7 => Some(Csr(RC, rd, w / 0x10_0000, true, rs1))
      case _ => None
  }

  /** The instruction that a word encodes by the listings of chapter 24, restricted to RV32I, M and Zicsr, or
      as one of the machine-mode instructions mret and wfi. */
  function Decode(w: u32): (i: Option<Instr>)
    ensures i.Some? ==> i.value.Registers()
  {
    var rd, funct3, rs1 := w / 0x80 % 0x20, w / 0x1000 % 8, w / 0x8000 % 0x20;
    var rs2, funct7 := w / 0x10_0000 % 0x20, w / 0x200_0000;
    match w % 0x80
    case 0x33 => (
      match DecodeOp(funct3, funct7)
      case Some(op) => Some(Op(op, rd, rs1, rs2))
      case None => None)
    case 0x13 => (
      match DecodeOpImm(funct3, funct7)
      case Some(op) =>
        Some(OpImm(op, rd, rs1, if op in {SLL, SRL, SRA} then rs2 else Extend(LayoutI(w), 0x800)))
      case None => None)
    case 0x03 => (
      match DecodeLoad(funct3)
      case Some((width, signed)) => Some(LoadTo(width, signed, rd, rs1, Extend(LayoutI(w), 0x800)))
      case None => None)
    case 0x23 => (
      match DecodeStore(funct3)
      case Some(width) => Some(StoreFrom(width, rs1, rs2, Extend(LayoutS(w), 0x800)))
      case None => None)
    case 0x63 => (
      match DecodeBranch(funct3)
      case Some(condition) => Some(Branch(condition, rs1, rs2, Extend(LayoutB(w), 0x1000)))
      case None => None)
    case 0x6f => Some(Jal(rd, Extend(LayoutJ(w), 0x10_0000)))
    case 0x67 => if funct3 == 0 then Some(Jalr(rd, rs1, Extend(LayoutI(w), 0x800))) else None
    case 0x37 => Some(Lui(rd, LayoutU(w)))
    case 0x17 => Some(Auipc(rd, LayoutU(w)))
    case 0x0f => if funct3 == 0 then Some(Fence) else None
    case 0x73 => DecodeSystem(w, funct3, rd, rs1)
    case _ => None
  }

  // ----- results -----

  /** The number whose n low bits are f(lo), f(lo + 1), ... */
  function FromBits(f: nat -> bool, lo: nat, n: nat): (v: nat)
    ensures v < Pow2(n)
    decreases n
  {
    if n == 0 then 0 else BitValue(f(lo)) + 2 * FromBits(f, lo + 1, n - 1)
  }

  function FromBits32(f: nat -> bool): u32 {
    Pow2Values();
    FromBits(f, 0, 32)
  }

  function BothBits(a: u32, b: u32): nat -> bool { (i: nat) => Bit(a, i) && Bit(b, i) }

  function EitherBit(a: u32, b: u32): nat -> bool { (i: nat) => Bit(a, i) || Bit(b, i) }

  function OneBit(a: u32, b: u32): nat -> bool { (i: nat) => Bit(a, i) != Bit(b, i) }

  function LeftBits(a: u32, k: nat): nat -> bool { (i: nat) => i >= k && Bit(a, i - k) }

  function RightBits(a: u32, k: nat, fill: bool): nat -> bool {
    (i: nat) => if i + k < 32 then Bit(a, i + k) else fill
  }

  function TowardZero(q: real): int {
    if q >= 0.0 then q.Floor else -(-q).Floor
  }

  predicate Overflows(a: u32, b: u32) {
    Signed(a) == -0x8000_0000 && Signed(b) == -1
  }

  function Quotient(a: int, b: int): int
    requires b != 0
  {
    TowardZero(a as real / b as real)
  }

  function Value(op: AluOp, a: u32, b: u32): u32 {
    match op
    case ADD => Wrap(Signed(a) + Signed(b))
    case SUB => Wrap(Signed(a) - Signed(b))
    case SLL => FromBits32(LeftBits(a, b % 32))
    case SLT => BitValue(Signed(a) < Signed(b))
    case SLTU => BitValue(a < b)
    case XOR => FromBits32(OneBit(a, b))
    case SRL => FromBits32(RightBits(a, b % 32, false))
    case SRA => FromBits32(RightBits(a, b % 32, Bit(a, 31)))
    case OR => FromBits32(EitherBit(a, b))
    case AND => FromBits32(BothBits(a, b))
    case MUL => Wrap(Signed(a) * Signed(b))
    case MULH => Wrap(Signed(a) * Signed(b) / TWO_32)
    case MULHSU => Wrap(Signed(a) * b / TWO_32)
    case MULHU => Wrap(a * b / TWO_32)
    case DIV =>
      if b == 0 then TWO_32 - 1 else if Overflows(a, b) then a else Wrap(Quotient(Signed(a), Signed(b)))
    case DIVU => if b == 0 then TWO_32 - 1 else Wrap(Quotient(a, b))
    case REM =>
      if b == 0 then a else if Overflows(a, b) then 0
      else Wrap(Signed(a) - Signed(b) * Quotient(Signed(a), Signed(b)))
    case REMU => if b == 0 then a else Wrap(a - b * Quotient(a, b))
  }

  predicate Holds(condition: Condition, a: u32, b: u32) {
    match condition
    case EQ => a == b
    case NE => a != b
    case LT => Signed(a) < Signed(b)
    case GE => Signed(a) >= Signed(b)
    case LTU => a < b
    case GEU => a >= b
  }

  // ----- memory -----

  function Read(width: Width, h: Hart, host: Host, addr: u32): Option<u32>
    requires h.Valid()
  {
    if InRam(h.mem, addr, width) then
      ValueFits(h.mem[addr..addr + width.Size()]);
      Some(FromBytes(h.mem[addr..addr + width.Size()]))
    else match width
      case Byte => WidenedByte(host.load8(addr))
      case Half => WidenedHalf(host.load16(addr))
      case Word => if addr == 0x9000_0000 then Some(h.ctl.ie) else host.load32(addr)
  }

  function Write(width: Width, h: Hart, host: Host, addr: u32, v: u32): (r: Option<Hart>)
    requires h.Valid()
    ensures r.Some? ==> r.value.Valid()
  {
    if InRam(h.mem, addr, width) then Some(h.(mem := Splice(h.mem, addr, v, width.Size())))
    else match width
      case Byte => if host.store8(addr, v % 0x100) then Some(h) else None
      case Half => if host.store16(addr, v % 0x1_0000) then Some(h) else None
      case Word =>
        if addr == 0x9000_0000 then Some(h.(ctl := h.ctl.(ie := v)))
        else if host.store32(addr, v) then Some(h) else None
  }

  lemma ValueFits(s: seq<u8>)
    requires |s| in {1, 2, 4}
    ensures FromBytes(s) < TWO_32
  {
    WordsAreLittleEndian(s, 0);
    assert s == s[0..|s|];
  }

  function Sized(width: Width, signed: bool, v: u32): u32 {
    if signed then Wrap(Extend(v, match width case Byte => 0x80 case Half => 0x8000 case Word => 0x8000_0000)) else v
  }

  // ----- execution -----

  function Transfer(h: Hart, target: u32, rd: nat): (o: Outcome)
    requires h.Valid() && rd < 32
    ensures o.Next? ==> o.hart.Valid()
  {
    if target % 4 != 0 then Misaligned else Next(h.SetX(rd, Wrap(h.ctl.pc + 4)).Goto(target))
  }

  function Modified(op: CsrOp, prior: u32, v: u32): u32 {
    match op
    case RW => v
    case RS => FromBits32(EitherBit(prior, v))
    case RC => FromBits32(BothBits(prior, Not32(v)))
  }

  function PerformLoad(h: Hart, width: Width, signed: bool, rd: nat, addr: u32, host: Host): (o: Outcome)
    requires h.Valid() && rd < 32
    ensures o.Next? ==> o.hart.Valid()
  {
    match Read(width, h, host, addr)
    case None => Next(h.Halt(InvalidMemoryAccess))
    case Some(v) => Next(h.SetX(rd, Sized(width, signed, v)).Advance())
  }

  function PerformStore(h: Hart, width: Width, addr: u32, v: u32, host: Host): (o: Outcome)
    requires h.Valid()
    ensures o.Next? ==> o.hart.Valid()
  {
    match Write(width, h, host, addr, v)
    case None => Next(h.Halt(InvalidMemoryAccess))
    case Some(g) => Next(g.Advance())
  }

  /** Chapter 9.1: set and clear do not write at all when their source field is zero. */
  function PerformCsr(h: Hart, op: CsrOp, rd: nat, csr: u32, v: u32, sourceZero: bool): (g: Hart)
    requires h.Valid() && rd < 32
    ensures g.Valid()
  {
    var prior := ReadCsr(h.ctl, csr);
    var ctl := if op != RW && sourceZero then h.ctl else WriteCsr(h.ctl, csr, Modified(op, prior, v));
    h.(ctl := ctl).SetX(rd, prior).Advance()
  }

  function PerformEcall(h: Hart, host: Host): (g: Hart)
    requires h.Valid()
    ensures g.Valid()
  {
    var a := host.ecall([0] + h.x, h.mem);
    var g := (if |a.r| == 32 && |a.mem| == |h.mem| then h.(x := a.r[1..], mem := a.mem) else h).Halt(a.status);
    if g.ctl.status == Running then g.Advance() else g
  }

  /** Section 3.1.6.1 of the privileged manual: MIE takes MPIE, and MPIE is set. */
  function MretBits(mstatus: u32): nat -> bool {
    (i: nat) => if i == 3 then Bit(mstatus, 7) else i == 7 || Bit(mstatus, i)
  }

  function PerformMret(h: Hart): (g: Hart)
    requires h.Valid()
    ensures g.Valid()
  {
    h.(ctl := h.ctl.(pc := h.ctl.mepc, mstatus := FromBits32(MretBits(h.ctl.mstatus))))
  }

  function Perform(h: Hart, i: Instr, host: Host): (o: Outcome)
    requires h.Valid() && i.Registers()
    ensures o.Next? ==> o.hart.Valid()
  {
    match i
    case Op(op, rd, rs1, rs2) => Next(h.SetX(rd, Value(op, h.X(rs1), h.X(rs2))).Advance())
    case OpImm(op, rd, rs1, imm) => Next(h.SetX(rd, Value(op, h.X(rs1), Wrap(imm))).Advance())
    case LoadTo(width, signed, rd, rs1, imm) => PerformLoad(h, width, signed, rd, Wrap(h.X(rs1) + imm), host)
    case StoreFrom(width, rs1, rs2, imm) => PerformStore(h, width, Wrap(h.X(rs1) + imm), h.X(rs2), host)
    case Branch(condition, rs1, rs2, imm) =>
      if Holds(condition, h.X(rs1), h.X(rs2)) then Transfer(h, Wrap(h.ctl.pc + imm), 0)
      else Next(h.Advance())
    case Jal(rd, imm) => Transfer(h, Wrap(h.ctl.pc + imm), rd)
    case Jalr(rd, rs1, imm) =>
      var target := Wrap(h.X(rs1) + imm);
      Transfer(h, target - target % 2, rd)
    case Lui(rd, imm) => Next(h.SetX(rd, Wrap(imm * 0x1000)).Advance())
    case Auipc(rd, imm) => Next(h.SetX(rd, Wrap(h.ctl.pc + imm * 0x1000)).Advance())
    case Csr(op, rd, csr, immediate, rs1) =>
      if csr !in IMPLEMENTED_CSRS then AbsentCsr
      else Next(PerformCsr(h, op, rd, csr, if immediate then rs1 else h.X(rs1), rs1 == 0))
    case Fence => Next(h.Advance())
    case Ecall => Next(PerformEcall(h, host))
    case Ebreak => Next(h.Halt(Status.Ebreak).Advance())
    case Mret => Next(PerformMret(h))
    case Wfi => Next(h.(ctl := h.ctl.(wfi := true)).Advance())
  }

  /** Privileged section 3.3.3: a waiting hart resumes once an interrupt that mie enables is pending, whatever
      MIE says. */
  predicate Wakes(c: Ctl) {
    c.wfi && c.status == Running && Interrupts.Bits(c.mie) * Interrupts.Bits(c.mip) != {}
  }

  function Woken(h: Hart): (g: Hart)
    requires h.Valid()
    ensures g.Valid()
  {
    if Wakes(h.ctl) then h.(ctl := h.ctl.(wfi := false)) else h
  }

  /** One step of the hart. */
  function Step(h: Hart, host: Host): (o: Outcome)
    requires h.Valid()
    ensures o.Next? ==> o.hart.Valid()
  {
    var g := Woken(h.(ctl := Prelude(h.ctl)));
    if g.ctl.wfi || g.ctl.status != Running then Next(g)
    else if g.ctl.pc in Breakpoints.Listed(g.ctl) then Next(g.Halt(Paused))
    else match Read(Word, g, host, g.ctl.pc)
      case None => Next(g.Halt(InvalidMemoryAccess))
      case Some(w) =>
        match Decode(w)
        case Some(i) => if g.ctl.pc % 4 != 0 then Reserved else Perform(g, i, host)
        case None => Reserved
  }
}
