/**
 The emulator core on values: one cycle of src/rv32.h as a function of the whole
 machine state, and runs of events.
 */
module Core {
  import opened Words
  import opened Immediates
  import opened Alu
  import opened Memory
  import opened Control

  datatype Cpu = Cpu(ctl: Ctl, r: seq<u32>, mem: seq<u8>) {
    predicate Valid() {
      |ctl.bp| == 8 && |r| == 32 && RamSize(mem)
    }
  }

  // ----- the machine after rv32_new -----

  /** How many bytes of RAM lie inside the C struct that rv32_new clears (4-byte alignment). */
  const RAM_IN_STRUCT: nat := 4

  function ResetControl(bp: seq<u32>): Ctl {
    Ctl(Paused, 0, bp, 0, 0, 0, 0, 0, 0, 0, false, 0, 0)
  }

  /** rv32_new over a struct whose RAM held `ram`. */
  function ResetState(ram: seq<u8>): (s: Cpu)
    requires RamSize(ram)
    ensures s.Valid()
  {
    Cpu(ResetControl(seq(8, _ => 0)), seq(32, _ => 0), seq(RAM_IN_STRUCT, _ => 0) + ram[RAM_IN_STRUCT..])
  }

  // ----- results of the computing instructions; None is an invalid encoding -----

  function MulDiv(funct3: u32, a: u32, b: u32): Option<u32> {
    match funct3
    case 0 => Some(Mul(a, b))
    case 1 => Some(Mulh(a, b))
    case 2 => Some(Mulhsu(a, b))
    case 3 => Some(Mulhu(a, b))
    case 4 => Some(Div(a, b))
    case 5 => Some(Divu(a, b))
    case 6 => Some(Rem(a, b))
    case 7 => Some(Remu(a, b))
    case _ => None
  }

  function RegisterOp(funct3: u32, funct7: u32, a: u32, b: u32): Option<u32> {
    if funct7 == 1 then MulDiv(funct3, a, b)
    else match funct3
      case 0 =>
        if funct7 == 0 then Some(Wrap(a + b)) else if funct7 == 0x20 then Some(Wrap(a - b)) else None
      case 4 => Some(Xor32(a, b))
      case 6 => Some(Or32(a, b))
      case 7 => Some(And(a, b))
      case 1 => Some(Shl(a, And(b, 0x1f)))
      case 5 =>
        if funct7 == 0 then Some(Shr(a, And(b, 0x1f)))
        else if funct7 == 0x20 then Some(Sar(a, And(b, 0x1f))) else None
      case 2 => Some(if Signed(a) < Signed(b) then 1 else 0)
      case 3 => Some(if a < b then 1 else 0)
      case _ => None
  }

  function ImmediateOp(w: u32, a: u32): Option<u32> {
    var shamt := And(ImmI(w), 0x1f);
    match Funct3(w)
    case 0 => Some(Wrap(a + SExtImmI(w)))
    case 4 => Some(Xor32(a, SExtImmI(w)))
    case 6 => Some(Or32(a, SExtImmI(w)))
    case 7 => Some(And(a, SExtImmI(w)))
    case 1 => Some(Shl(a, shamt))
    case 5 =>
      if Funct7(w) == 0 then Some(Shr(a, shamt)) else if Funct7(w) == 0x20 then Some(Sar(a, shamt)) else None
    case 2 => Some(if Signed(a) < Signed(SExtImmI(w)) then 1 else 0)
    case 3 => Some(if a < ImmI(w) then 1 else 0)
    case _ => None
  }

  /** The width of a load and whether its value is sign-extended. */
  function LoadKind(funct3: u32): Option<(Width, bool)> {
    match funct3
    case 0 => Some((Byte, true))
    case 1 => Some((Half, true))
    case 2 => Some((Word, false))
    case 4 => Some((Byte, false))
    case 5 => Some((Half, false))
    case _ => None
  }

  function Extended(width: Width, signed: bool, v: u32): u32 {
    if signed then SExt(v, 8 * width.Size()) else v
  }

  function StoreKind(funct3: u32): Option<Width> {
    match funct3
    case 0 => Some(Byte)
    case 1 => Some(Half)
    case 2 => Some(Word)
    case _ => None
  }

  function BranchTaken(funct3: u32, a: u32, b: u32): Option<bool> {
    match funct3
    case 0 => Some(a == b)
    case 1 => Some(a != b)
    case 4 => Some(Signed(a) < Signed(b))
    case 5 => Some(Signed(a) >= Signed(b))
    case 6 => Some(a < b)
    case 7 => Some(a >= b)
    case _ => None
  }

  /** What a CSR instruction writes. */
  function CsrWritten(funct3: u32, prior: u32, rs1: u32, imm: u32): Option<u32> {
    match funct3
    case 1 => Some(rs1)
    case 2 => Some(Or32(prior, rs1))
    case 3 => Some(And(prior, Not32(rs1)))
    case 5 => Some(imm)
    case 6 => Some(Or32(prior, imm))
    case 7 => Some(And(prior, Not32(imm)))
    case _ => None
  }

  // ----- one instruction -----

  function Stop(s: Cpu, status: Status): Cpu {
    s.(ctl := s.ctl.(status := status))
  }

  function Jump(s: Cpu, pc: u32): Cpu {
    s.(ctl := s.ctl.(pc := pc))
  }

  function Next(s: Cpu): Cpu {
    Jump(s, Wrap(s.ctl.pc + 4))
  }

  function SetReg(s: Cpu, i: u32, v: u32): (t: Cpu)
    requires s.Valid() && i < 32
    ensures t.Valid()
  {
    s.(r := s.r[i := v])
  }

  function WriteBack(s: Cpu, w: u32, result: Option<u32>): (t: Cpu)
    requires s.Valid()
    ensures t.Valid()
  {
    match result
    case Some(v) => Next(SetReg(s, Rd(w), v))
    case None => Stop(s, InvalidInstruction)
  }

  function ExecuteLoad(s: Cpu, w: u32, host: Host): (t: Cpu)
    requires s.Valid()
    ensures t.Valid()
  {
    var addr := Wrap(s.r[Rs1(w)] + SExtImmI(w));
    match LoadKind(Funct3(w))
    case None => Stop(s, InvalidInstruction)
    case Some((width, signed)) =>
      match Load(width, s.mem, s.ctl.ie, host, addr)
      case None => Stop(s, InvalidMemoryAccess)
      case Some(v) => Next(SetReg(s, Rd(w), Extended(width, signed, v)))
  }

  function ExecuteStore(s: Cpu, w: u32, host: Host): (t: Cpu)
    requires s.Valid()
    ensures t.Valid()
  {
    var addr := Wrap(s.r[Rs1(w)] + SExtImmS(w));
    match StoreKind(Funct3(w))
    case None => Stop(s, InvalidInstruction)
    case Some(width) =>
      match Store(width, s.mem, s.ctl.ie, host, addr, s.r[Rs2(w)])
      case None => Stop(s, InvalidMemoryAccess)
      case Some((mem, ie)) => Next(s.(mem := mem, ctl := s.ctl.(ie := ie)))
  }

  function ExecuteBranch(s: Cpu, w: u32): (t: Cpu)
    requires s.Valid()
    ensures t.Valid()
  {
    match BranchTaken(Funct3(w), s.r[Rs1(w)], s.r[Rs2(w)])
    case None => Stop(s, InvalidInstruction)
    case Some(taken) => if taken then Jump(s, Wrap(s.ctl.pc + SExtImmB(w))) else Next(s)
  }

  function Ecall(s: Cpu, host: Host): (t: Cpu)
    requires s.Valid()
    ensures t.Valid()
  {
    var a := EcallAnswer(host, s.r, s.mem);
    var t := Stop(s.(r := a.r, mem := a.mem), a.status);
    if t.ctl.status != Running then t else Next(t)
  }

  function ExecuteCsr(s: Cpu, w: u32): (t: Cpu)
    requires s.Valid()
    ensures t.Valid()
  {
    var prior := ReadCsr(s.ctl, ImmI(w));
    match CsrWritten(Funct3(w), prior, s.r[Rs1(w)], Rs1(w))
    case None => Stop(s, InvalidInstruction)
    case Some(v) => Next(SetReg(s.(ctl := WriteCsr(s.ctl, ImmI(w), v)), Rd(w), prior))
  }

  function ExecuteSystem(s: Cpu, w: u32, host: Host): (t: Cpu)
    requires s.Valid()
    ensures t.Valid()
  {
    if Funct3(w) == 0 then
      match ImmI(w)
      case 0 => Ecall(s, host)
      case 1 => Next(Stop(s, Ebreak))
      case 0x302 => s.(ctl := Mret(s.ctl))
      case 0x105 => Next(s.(ctl := s.ctl.(wfi := true)))
      case _ => Stop(s, InvalidInstruction)
    else if And(Funct3(w), 3) != 0 then ExecuteCsr(s, w)
    else Stop(s, InvalidInstruction)
  }

  function Execute(s: Cpu, w: u32, host: Host): (t: Cpu)
    requires s.Valid()
    ensures t.Valid()
  {
    match Opcode(w)
    case 0x33 => WriteBack(s, w, RegisterOp(Funct3(w), Funct7(w), s.r[Rs1(w)], s.r[Rs2(w)]))
    case 0x13 => WriteBack(s, w, ImmediateOp(w, s.r[Rs1(w)]))
    case 0x03 => ExecuteLoad(s, w, host)
    case 0x23 => ExecuteStore(s, w, host)
    case 0x63 => ExecuteBranch(s, w)
    case 0x6f => Jump(SetReg(s, Rd(w), Wrap(s.ctl.pc + 4)), Wrap(s.ctl.pc + SExtImmJ(w)))
    case 0x67 =>
      SetReg(Jump(s, And(Wrap(s.r[Rs1(w)] + SExtImmI(w)), Not32(1))), Rd(w), Wrap(s.ctl.pc + 4))
    case 0x37 => Next(SetReg(s, Rd(w), Shl(SExtImmU(w), 12)))
    case 0x17 => Next(SetReg(s, Rd(w), Wrap(s.ctl.pc + Shl(SExtImmU(w), 12))))
    case 0x73 => ExecuteSystem(s, w, host)
    case _ => Stop(s, InvalidInstruction)
  }

  // ----- one cycle -----

  predicate Stalled(c: Ctl) {
    c.wfi || c.status != Running
  }

  function Cycle(s: Cpu, host: Host): (t: Cpu)
    requires s.Valid()
    ensures t.Valid()
  {
    var p := s.(ctl := Prelude(s.ctl));
    if Stalled(p.ctl) then p
    else if BreakpointHit(p.ctl) then Stop(p, Paused)
    else match Load32(p.mem, p.ctl.ie, host, p.ctl.pc)
      case None => Stop(p, InvalidMemoryAccess)
      case Some(w) => Execute(SetReg(p, 0, 0), w, host)
  }

  /** The word that this cycle executes, if it gets that far. */
  function Fetched(s: Cpu, host: Host): Option<u32>
    requires s.Valid()
  {
    var c := Prelude(s.ctl);
    if Stalled(c) || BreakpointHit(c) then None else Load32(s.mem, c.ie, host, c.pc)
  }

  // ----- runs -----

  /** All that can happen to the machine: its own cycles, interrupt lines, and the actions of the API and
      the debugger. */
  datatype Event =
    | Tick(host: Host)
    | Irq(line: u32)
    | Continue
    | Interrupt
    | SetBp(addr: u32)
    | ClearBp(addr: u32)
    | ClearAllBps
    | Write(image: Image)
    | Reset

  /** What the debugger can write. */
  datatype Image = Image(r: seq<u32>, pc: u32, mem: seq<u8>)

  function ImageOf(s: Cpu): Image {
    Image(s.r, s.ctl.pc, s.mem)
  }

  predicate Fits(s: Cpu, image: Image) {
    |image.r| == |s.r| && |image.mem| == |s.mem|
  }

  /** An image of another shape is not written. */
  function Overwrite(s: Cpu, image: Image): (t: Cpu)
    requires s.Valid()
    ensures t.Valid()
  {
    if Fits(s, image) then s.(r := image.r, mem := image.mem, ctl := s.ctl.(pc := image.pc)) else s
  }

  function Handle(s: Cpu, e: Event): (t: Cpu)
    requires s.Valid()
    ensures t.Valid()
  {
    match e
    case Tick(host) => Cycle(s, host)
    case Irq(line) => s.(ctl := Trigger(s.ctl, line))
    case Continue => s.(ctl := Resume(s.ctl))
    case Interrupt => Stop(s, Paused)
    case SetBp(addr) => s.(ctl := SetBreakpoint(s.ctl, addr).0)
    case ClearBp(addr) => s.(ctl := ClearBreakpoint(s.ctl, addr).0)
    case ClearAllBps => s.(ctl := ClearAllBreakpoints(s.ctl))
    case Write(image) => Overwrite(s, image)
    case Reset => ResetState(s.mem)
  }

  function Run(s: Cpu, es: seq<Event>): (t: Cpu)
    requires s.Valid()
    ensures t.Valid()
  {
    if es == [] then s else Handle(Run(s, es[..|es| - 1]), es[|es| - 1])
  }

  lemma RunStep(s: Cpu, es: seq<Event>, k: nat)
    requires s.Valid() && k < |es|
    ensures Run(s, es[..k + 1]) == Handle(Run(s, es[..k]), es[k])
  {
    assert es[..k + 1][..k] == es[..k];
  }

  lemma {:induction false} RunConcat(s: Cpu, es: seq<Event>, fs: seq<Event>)
    requires s.Valid()
    ensures Run(s, es + fs) == Run(Run(s, es), fs)
    decreases |fs|
  {
    hide Handle;
    if fs == [] {
      assert es + fs == es;
    } else {
      assert (es + fs)[..|es + fs| - 1] == es + fs[..|fs| - 1];
      RunConcat(s, es, fs[..|fs| - 1]);
    }
  }
}
