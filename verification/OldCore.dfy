/**
 The older core of examples/c-newlib-nano/rv32.c, which returns an error code
 instead of keeping a status and touches RAM byte by byte.
 */
module OldCore {
  import opened Words
  import opened Immediates
  import opened Memory
  import Core
  import Alu

  datatype Result = Ok | InvalidOpcode | InvalidInstruction | InvalidMemory

  datatype Old = Old(r: seq<u32>, pc: u32, mem: seq<u8>) {
    predicate Valid() {
      |r| == 32 && RamSize(mem)
    }

    function Set(i: u32, v: u32): (s: Old)
      requires Valid() && i < 32
      ensures s.Valid()
    {
      this.(r := r[i := v])
    }

    function Advance(): Old {
      this.(pc := Wrap(pc + 4))
    }
  }

  /** Shift amounts are used unmasked; C leaves amounts of 32 and more undefined. */
  function RegisterOp(funct3: u32, funct7: u32, a: u32, b: u32): Option<u32> {
    if funct7 == 1 then Core.MulDiv(funct3, a, b)
    else match funct3
      case 0 =>
        if funct7 == 0 then Some(Wrap(a + b)) else if funct7 == 0x20 then Some(Wrap(a - b)) else None
      case 4 => Some(Xor32(a, b))
      case 6 => Some(Or32(a, b))
      case 7 => Some(And(a, b))
      case 1 => Some(Shl(a, b))
      case 5 =>
        if funct7 == 0 then Some(Shr(a, b)) else if funct7 == 0x20 then Some(Alu.Sar(a, b)) else None
      case 2 => Some(if Signed(a) < Signed(b) then 1 else 0)
      case 3 => Some(if a < b then 1 else 0)
      case _ => None
  }

  /** Loads: bytes joined by `|` and `<<`. */
  function LoadBytes(mem: seq<u8>, funct3: u32, addr: u32): (Option<u32>, Result)
    requires RamSize(mem)
  {
    match funct3
    case 0 => if addr >= |mem| then (None, InvalidMemory) else (Some(SExt(mem[addr], 8)), Ok)
    case 1 =>
      if addr >= |mem| - 1 then (None, InvalidMemory)
      else (Some(SExt(Or32(mem[addr], Shl(mem[addr + 1], 8)), 16)), Ok)
    case 2 =>
      if addr >= |mem| - 3 then (None, InvalidMemory)
      else
        (Some(Or32(Or32(Or32(mem[addr], Shl(mem[addr + 1], 8)), Shl(mem[addr + 2], 16)), Shl(mem[addr + 3], 24))), Ok)
    case 4 => if addr >= |mem| then (None, InvalidMemory) else (Some(mem[addr]), Ok)
    case 5 =>
      if addr >= |mem| - 1 then (None, InvalidMemory)
      else (Some(Or32(mem[addr], Shl(mem[addr + 1], 8))), Ok)
    case _ => (None, Result.InvalidInstruction)
  }

  function ByteOf(v: u32, k: nat): u8 {
    And(Shr(v, k), 0xff)
  }

  /** Stores: `mem[addr++]` per byte.  The bound of sh is one too large; at the last byte it writes past RAM. */
  function StoreBytes(mem: seq<u8>, funct3: u32, addr: u32, v: u32): (Option<seq<u8>>, Result)
    requires RamSize(mem)
    requires funct3 == 1 ==> addr != |mem| - 1
  {
    match funct3
    case 0 => if addr >= |mem| then (None, InvalidMemory) else (Some(mem[addr := ByteOf(v, 0)]), Ok)
    case 1 =>
      if addr >= |mem| then (None, InvalidMemory)
      else (Some(mem[addr := ByteOf(v, 0)][addr + 1 := ByteOf(v, 8)]), Ok)
    case 2 =>
      if addr >= |mem| - 3 then (None, InvalidMemory)
      else
        var low := mem[addr := ByteOf(v, 0)][addr + 1 := ByteOf(v, 8)];
        (Some(low[addr + 2 := ByteOf(v, 16)][addr + 3 := ByteOf(v, 24)]), Ok)
    case _ => (None, Result.InvalidInstruction)
  }

  /** The inputs on which C defines the instruction: shift amounts below 32, and no sh at the last byte. */
  predicate Defined(s: Old, w: u32)
    requires s.Valid()
  {
    && (Opcode(w) == 0x33 && Funct7(w) != 1 && Funct3(w) in {1, 5} ==> s.r[Rs2(w)] < 32)
    && (Opcode(w) == 0x23 && Funct3(w) == 1 ==> Wrap(s.r[Rs1(w)] + SExtImmS(w)) != |s.mem| - 1)
  }

  function WriteBack(s: Old, w: u32, result: Option<u32>): (t: (Old, Result))
    requires s.Valid()
    ensures t.0.Valid()
  {
    match result
    case Some(v) => (s.Set(Rd(w), v).Advance(), Ok)
    case None => (s, Result.InvalidInstruction)
  }

  function LoadOp(s: Old, w: u32): (t: (Old, Result))
    requires s.Valid()
    ensures t.0.Valid()
  {
    match LoadBytes(s.mem, Funct3(w), Wrap(s.r[Rs1(w)] + SExtImmI(w)))
    case (Some(v), res) => (s.Set(Rd(w), v).Advance(), res)
    case (None, res) => (s, res)
  }

  function StoreOp(s: Old, w: u32): (t: (Old, Result))
    requires s.Valid() && Opcode(w) == 0x23 && Defined(s, w)
    ensures t.0.Valid()
  {
    match StoreBytes(s.mem, Funct3(w), Wrap(s.r[Rs1(w)] + SExtImmS(w)), s.r[Rs2(w)])
    case (Some(m), res) => (s.(mem := m).Advance(), res)
    case (None, res) => (s, res)
  }

  function Branch(s: Old, w: u32): (t: (Old, Result))
    requires s.Valid()
    ensures t.0.Valid()
  {
    match Core.BranchTaken(Funct3(w), s.r[Rs1(w)], s.r[Rs2(w)])
    case Some(taken) => (if taken then s.(pc := Wrap(s.pc + SExtImmB(w))) else s.Advance(), Ok)
    case None => (s, Result.InvalidInstruction)
  }

  /** jalr writes the link register before it reads rs1, and keeps bit 0 of the target. */
  function Jalr(s: Old, w: u32): (t: Old)
    requires s.Valid()
    ensures t.Valid()
  {
    var linked := s.Set(Rd(w), Wrap(s.pc + 4));
    linked.(pc := Wrap(linked.r[Rs1(w)] + SExtImmI(w)))
  }

  function Execute(s: Old, w: u32): (t: (Old, Result))
    requires s.Valid() && Defined(s, w)
    ensures t.0.Valid()
  {
    match Opcode(w)
    case 0x33 => WriteBack(s, w, RegisterOp(Funct3(w), Funct7(w), s.r[Rs1(w)], s.r[Rs2(w)]))
    case 0x13 => WriteBack(s, w, Core.ImmediateOp(w, s.r[Rs1(w)]))
    case 0x03 => LoadOp(s, w)
    case 0x23 => StoreOp(s, w)
    case 0x63 => Branch(s, w)
    case 0x6f => (s.Set(Rd(w), Wrap(s.pc + 4)).(pc := Wrap(s.pc + SExtImmJ(w))), Ok)
    case 0x67 => (Jalr(s, w), Ok)
    case 0x37 => (s.Set(Rd(w), Shl(SExtImmU(w), 12)).Advance(), Ok)
    case 0x17 => (s.Set(Rd(w), Wrap(s.pc + Shl(SExtImmU(w), 12))).Advance(), Ok)
    case 0x73 => if ImmI(w) <= 1 then (s.Advance(), Ok) else (s, Result.InvalidInstruction)
    case _ => (s, InvalidOpcode)
  }

  /** C defines the cycle: the fetch stays in RAM or is refused, and the instruction is defined. */
  predicate CycleDefined(s: Old)
    requires s.Valid()
  {
    s.pc < |s.mem| ==> s.pc + 4 <= |s.mem| && Defined(s.Set(0, 0), Word32(s.mem, s.pc))
  }

  function OneCycle(s: Old): (t: (Old, Result))
    requires s.Valid() && CycleDefined(s)
    ensures t.0.Valid()
  {
    if s.pc >= |s.mem| then (s, InvalidMemory) else Execute(s.Set(0, 0), Word32(s.mem, s.pc))
  }

  // ----- what the lock step does not cover -----

  /** ecall and ebreak, whatever the other fields, only move on; every other SYSTEM word is an invalid
      instruction. */
  lemma SystemMovesOn(s: Old, w: u32)
    requires s.Valid() && Defined(s, w) && w % 0x80 == 0x73
    ensures Execute(s, w)
         == if w / 0x10_0000 <= 1 then (s.(pc := Wrap(s.pc + 4)), Ok) else (s, Result.InvalidInstruction)
  {
    hide Opcode, Rd, Rs1, Rs2, Funct3, Funct7, ImmI, ImmU;
    FieldsAtLiterals(w);
  }

  /** jalr through its own link register jumps relative to the link, and an odd target stays odd. */
  lemma JalrReadsLink(s: Old, w: u32)
    requires s.Valid() && Defined(s, w) && w % 0x80 == 0x67
    ensures var rd, rs1, imm := w / 0x80 % 0x20, w / 0x8000 % 0x20, Extend(LayoutI(w), 0x800);
      var link := Wrap(s.pc + 4);
      Execute(s, w) == (Old(s.r[rd := link], Wrap((if rs1 == rd then link else s.r[rs1]) + imm), s.mem), Ok)
  {
    hide *;
    FieldsAtLiterals(w);
    SignedImmediates(w);
    OpcodeOfJalr(s, w);
    JalrByFields(s, w);
    var rd, rs1 := w / 0x80 % 0x20, w / 0x8000 % 0x20;
    SameSum(if rs1 == rd then Wrap(s.pc + 4) else s.r[rs1], Extend(LayoutI(w), 0x800));
  }

  lemma JalrByFields(s: Old, w: u32)
    requires s.Valid()
    ensures |s.r| == 32
    ensures var link := Wrap(s.pc + 4);
      Jalr(s, w)
        == Old(s.r[Rd(w) := link], Wrap((if Rs1(w) == Rd(w) then link else s.r[Rs1(w)]) + SExtImmI(w)), s.mem)
  {
    hide Rd, Rs1, SExtImmI, Wrap;
  }

  lemma OpcodeOfJalr(s: Old, w: u32)
    requires s.Valid() && Defined(s, w) && Opcode(w) == 0x67
    ensures Execute(s, w) == (Jalr(s, w), Ok)
  {
    hide Opcode, Jalr, Defined;
  }

  lemma SameSum(a: u32, imm: int)
    ensures Wrap(a + Wrap(imm)) == Wrap(a + imm)
  {
  }

  /** Words outside the ten opcodes are the only ones reported as invalid opcodes. */
  lemma InvalidOpcodes(s: Old, w: u32)
    requires s.Valid() && Defined(s, w)
    ensures Execute(s, w).1 == InvalidOpcode
        <==> w % 0x80 !in {0x33, 0x13, 0x03, 0x23, 0x63, 0x6f, 0x67, 0x37, 0x17, 0x73}
  {
    hide Opcode, Rd, Rs1, Rs2, Funct3, Funct7, ImmI, ImmU, RegisterOp, Core.ImmediateOp, SExtImmI, SExtImmS, SExtImmB,
         SExtImmJ, SExtImmU, Shl, ByteOf, Or32, SExt, Core.BranchTaken;
    FieldsAtLiterals(w);
  }

  /** The same core in place. */
  class OldRV32 {
    const r: array<u32>
    var pc: u32
    const mem: array<u8>

    ghost predicate Valid() {
      r.Length == 32 && 4 <= mem.Length < TWO_32
    }

    ghost function View(): (s: Old)
      requires Valid()
      reads this, r, mem
      ensures s.Valid()
    {
      Old(r[..], pc, mem[..])
    }

    constructor (ram: array<u8>)
      requires 4 <= ram.Length < TWO_32
      ensures Valid() && mem == ram && View() == Old(seq(32, _ => 0), 0, ram[..])
    {
      r := new u32[32](_ => 0);
      pc := 0;
      mem := ram;
      new;
      assert r[..] == seq(32, _ => 0);
    }

    method SetAndAdvance(w: u32, v: u32)
      requires Valid()
      modifies this`pc, r
      ensures View() == old(View()).Set(Rd(w), v).Advance()
    {
      hide Rd, Wrap;
      r[Rd(w)] := v;
      pc := Wrap(pc as int + 4);
      assert r[..] == old(r[..])[Rd(w) := v];
    }

    method Load(w: u32) returns (res: Result)
      requires Valid()
      modifies this`pc, r
      ensures (View(), res) == LoadOp(old(View()), w)
    {
      hide Or32, Shl, SExt, Rd, Rs1, Funct3, SExtImmI;
      var addr := Wrap(r[Rs1(w)] as int + SExtImmI(w));
      var v: u32;
      match Funct3(w) {
        case 0 =>
          if addr >= mem.Length { return InvalidMemory; }
          v := SExt(mem[addr], 8);
        case 1 =>
          if addr >= mem.Length - 1 { return InvalidMemory; }
          v := SExt(Or32(mem[addr], Shl(mem[addr + 1], 8)), 16);
        case 2 =>
          if addr >= mem.Length - 3 { return InvalidMemory; }
          v := Or32(Or32(Or32(mem[addr], Shl(mem[addr + 1], 8)), Shl(mem[addr + 2], 16)), Shl(mem[addr + 3], 24));
        case 4 =>
          if addr >= mem.Length { return InvalidMemory; }
          v := mem[addr];
        case 5 =>
          if addr >= mem.Length - 1 { return InvalidMemory; }
          v := Or32(mem[addr], Shl(mem[addr + 1], 8));
        case _ => return Result.InvalidInstruction;
      }
      SetAndAdvance(w, v);
      res := Ok;
    }

    method Store(w: u32) returns (res: Result)
      requires Valid() && Opcode(w) == 0x23 && Defined(View(), w)
      modifies this`pc, mem
      ensures (View(), res) == StoreOp(old(View()), w)
    {
      hide ByteOf, Wrap, Rs1, Rs2, Funct3, SExtImmS, Opcode;
      var addr: int := Wrap(r[Rs1(w)] as int + SExtImmS(w));
      var v := r[Rs2(w)];
      match Funct3(w) {
        case 0 =>
          if addr >= mem.Length { return InvalidMemory; }
          mem[addr] := ByteOf(v, 0);
        case 1 =>
          if addr >= mem.Length { return InvalidMemory; }
          mem[addr] := ByteOf(v, 0);
          addr := addr + 1;
          mem[addr] := ByteOf(v, 8);
        case 2 =>
          if addr >= mem.Length - 3 { return InvalidMemory; }
          mem[addr] := ByteOf(v, 0);
          addr := addr + 1;
          mem[addr] := ByteOf(v, 8);
          addr := addr + 1;
          mem[addr] := ByteOf(v, 16);
          addr := addr + 1;
          mem[addr] := ByteOf(v, 24);
        case _ => return Result.InvalidInstruction;
      }
      pc := Wrap(pc as int + 4);
      res := Ok;
    }

    method Cycle() returns (res: Result)
      requires Valid() && CycleDefined(View())
      modifies this`pc, r, mem
      ensures (View(), res) == OneCycle(old(View()))
    {
      hide RegisterOp, Core.ImmediateOp, Core.BranchTaken, LoadOp, StoreOp, Word32, Shl, Wrap, Rd, Rs1, Rs2, Funct3,
           Funct7, Opcode, ImmI, SExtImmB, SExtImmI, SExtImmJ, SExtImmU;
      if pc >= mem.Length { return InvalidMemory; }
      var w := Word32(mem[..], pc);
      r[0] := 0;
      ghost var s := old(View()).Set(0, 0);
      assert View() == s;
      res := Ok;
      match Opcode(w)
      case 0x33 =>
        var v := RegisterOp(Funct3(w), Funct7(w), r[Rs1(w)], r[Rs2(w)]);
        if v.None? { return Result.InvalidInstruction; }
        SetAndAdvance(w, v.value);
      case 0x13 =>
        var v := Core.ImmediateOp(w, r[Rs1(w)]);
        if v.None? { return Result.InvalidInstruction; }
        SetAndAdvance(w, v.value);
      case 0x03 => res := Load(w);
      case 0x23 => res := Store(w);
      case 0x63 =>
        var taken := Core.BranchTaken(Funct3(w), r[Rs1(w)], r[Rs2(w)]);
        if taken.None? { return Result.InvalidInstruction; }
        if taken.value { pc := Wrap(pc as int + SExtImmB(w)); } else { pc := Wrap(pc as int + 4); }
      case 0x6f =>
        r[Rd(w)] := Wrap(pc as int + 4);
        pc := Wrap(pc as int + SExtImmJ(w));
        assert r[..] == s.r[Rd(w) := Wrap(s.pc as int + 4)];
      case 0x67 =>
        r[Rd(w)] := Wrap(pc as int + 4);
        assert r[..] == s.r[Rd(w) := Wrap(s.pc as int + 4)];
        pc := Wrap(r[Rs1(w)] as int + SExtImmI(w));
      case 0x37 => SetAndAdvance(w, Shl(SExtImmU(w), 12));
      case 0x17 => SetAndAdvance(w, Wrap(pc as int + Shl(SExtImmU(w), 12)));
      case 0x73 =>
        if ImmI(w) > 1 { return Result.InvalidInstruction; }
        pc := Wrap(pc as int + 4);
      case _ => res := InvalidOpcode;
    }
  }
}
