/** The packet handlers of gdb_stub/rsp.h.  Exit stands for RSP_FATAL, which ends the process. */
module Commands {
  import opened Words
  import opened Hex
  import opened Packet
  import Immediates
  import Memory
  import Control
  import Core

  type Cpu = Core.Cpu

  const COMMA: u8 := 0x2c
  const COLON: u8 := 0x3a
  const SIZE_T: int := TWO_64

  datatype Handled = Exit | Silent(cpu: Cpu) | Replied(cpu: Cpu, packet: seq<u8>)

  /** Handlers keep the machine well-formed and its RAM the same size. */
  predicate SameShape(s: Cpu, t: Cpu) {
    t.Valid() && |t.mem| == |s.mem|
  }

  function Ascii(s: string): (t: seq<u8>)
    ensures |t| == |s|
  {
    seq(|s|, i requires 0 <= i < |s| => s[i] as int % 0x100)
  }

  /** A read of in_buffer; beyond its end C reads whatever follows, which here is 0. */
  function At(buf: seq<u8>, i: nat): u8 {
    if i < |buf| then buf[i] else 0
  }

  function Reply(cpu: Cpu, chunks: seq<Chunk>): (h: Handled)
    ensures !h.Exit? ==> h.cpu == cpu
  {
    match Emit(chunks)
    case None => Exit
    case Some(packet) => Replied(cpu, packet)
  }

  function ReplyText(cpu: Cpu, text: string): (h: Handled)
    ensures !h.Exit? ==> h.cpu == cpu
  {
    Reply(cpu, [Text(Ascii(text))])
  }

  // ----- numbers in commands -----

  datatype Scan = Scan(value: u32, at: nat, left: nat)

  /** The loop `while(rsp_is_hex_digit(buffer[0]) && size)`. */
  function ScanHex(buf: seq<u8>, at: nat, left: nat, value: u32): (r: Scan)
    ensures r.left <= left && r.at == at + (left - r.left)
    decreases left
  {
    if IsHexDigit(At(buf, at)) && left != 0 then
      ScanHex(buf, at + 1, left - 1, Or32(Shl(value, 4), FromHexDigit(At(buf, at)).value))
    else Scan(value, at, left)
  }

  // ----- registers -----

  /** The words of a `g` reply: r[0] to r[31], then pc, least significant byte first. */
  function RegisterImage(cpu: Cpu, n: nat): seq<u8>
    requires cpu.Valid() && n <= 33
  {
    if n == 0 then []
    else RegisterImage(cpu, n - 1) + Memory.ToBytes(if n == 33 then cpu.ctl.pc else cpu.r[n - 1], 4)
  }

  function ReadRegisters(cpu: Cpu): (h: Handled)
    requires cpu.Valid()
    ensures !h.Exit? ==> SameShape(cpu, h.cpu)
  {
    Reply(cpu, [Bytes(RegisterImage(cpu, 33))])
  }

  /** The first n registers of a `G` command. */
  function ParseRegisters(buf: seq<u8>, n: nat): (r: Option<seq<u32>>)
    requires 1 + 8 * n <= |buf|
    ensures r.Some? ==> |r.value| == n
  {
    if n == 0 then Some([])
    else match ParseRegisters(buf, n - 1)
      case None => None
      case Some(front) =>
        match HexToU32(buf[8 * n - 7..8 * n + 1])
        case None => None
        case Some(v) => Some(front + [v])
  }

  function WriteRegisters(cpu: Cpu, buf: seq<u8>, size: nat): (h: Handled)
    requires cpu.Valid() && size <= |buf|
    ensures !h.Exit? ==> SameShape(cpu, h.cpu)
  {
    if size != 265 then Exit
    else match ParseRegisters(buf, 33)
      case None => Exit
      case Some(v) => ReplyText(cpu.(r := v[..32], ctl := cpu.ctl.(pc := v[32])), "")
  }

  function WriteRegister(cpu: Cpu, buf: seq<u8>, size: nat): (h: Handled)
    requires cpu.Valid() && size <= |buf|
    ensures !h.Exit? ==> SameShape(cpu, h.cpu)
  {
    if size != 12 then Exit
    else match (HexToU8(buf[1], buf[2]), HexToU32(buf[4..12]))
      case (Some(reg), Some(val)) =>
        if reg > 32 then Exit
        else if reg == 32 then ReplyText(cpu.(ctl := cpu.ctl.(pc := val)), "OK")
        else ReplyText(cpu.(r := cpu.r[reg := val]), "OK")
      case _ => Exit
  }

  // ----- memory -----

  /** The address of byte k of a range, in 32 bits. */
  function Address(start: u32, k: nat): u32 {
    Wrap(start + k)
  }

  /** The bytes the reply loop reads. */
  function ReadRam(mem: seq<u8>, start: u32, n: nat): (s: seq<u8>)
    ensures |s| == n && forall k :: 0 <= k < n ==> s[k] == At(mem, Address(start, k))
  {
    seq<u8>(n, k requires 0 <= k < n => At(mem, Address(start, k)))
  }

  function OutOfRange(mem: seq<u8>, start: u32, length: u32): bool {
    start >= |mem| || Wrap(start + length) >= |mem|
  }

  function ReadMemory(cpu: Cpu, buf: seq<u8>, size: nat): (h: Handled)
    requires cpu.Valid() && 1 <= size <= |buf|
    ensures !h.Exit? ==> SameShape(cpu, h.cpu)
  {
    if !IsHexDigit(At(buf, 1)) then Exit
    else
      var a := ScanHex(buf, 1, size - 1, 0);
      if a.left == 0 || At(buf, a.at) != COMMA then Exit
      else
        var b := ScanHex(buf, a.at + 1, a.left - 1, 0);
        if b.left != 0 then Exit
        else if OutOfRange(cpu.mem, a.value, b.value) then ReplyText(cpu, "")
        else Reply(cpu, [Bytes(ReadRam(cpu.mem, a.value, b.value))])
  }

  /** The write loop from byte k; None when a digit is not hexadecimal. */
  function WriteRam(mem: seq<u8>, buf: seq<u8>, at: nat, start: u32, k: nat, n: nat): (m: Option<seq<u8>>)
    requires k <= n
    ensures m.Some? ==> |m.value| == |mem|
    decreases n - k
  {
    if k == n then Some(mem)
    else match HexToU8(At(buf, at + 2 * k), At(buf, at + 2 * k + 1))
      case None => None
      case Some(b) =>
        var i := Address(start, k);
        WriteRam(if i < |mem| then mem[i := b] else mem, buf, at, start, k + 1, n)
  }

  function WriteMemory(cpu: Cpu, buf: seq<u8>, size: nat): (h: Handled)
    requires cpu.Valid() && 1 <= size <= |buf|
    ensures !h.Exit? ==> SameShape(cpu, h.cpu)
  {
    if !IsHexDigit(At(buf, 1)) then Exit
    else
      var a := ScanHex(buf, 1, size - 1, 0);
      if a.left == 0 || At(buf, a.at) != COMMA then Exit
      else
        var b := ScanHex(buf, a.at + 1, a.left - 1, 0);
        if At(buf, b.at) != COLON then Exit
        else if (b.left - 1) % SIZE_T != Wrap(2 * b.value) then Exit
        else if OutOfRange(cpu.mem, a.value, b.value) then ReplyText(cpu, "")
        else match WriteRam(cpu.mem, buf, b.at + 1, a.value, 0, b.value)
          case None => Exit
          case Some(mem) => ReplyText(cpu.(mem := mem), "")
  }

  // ----- breakpoints -----

  /** The address of a `Z0` or `z0` command; the closing comma is looked for even past the packet. */
  function BreakpointAddress(buf: seq<u8>, size: nat): Option<u32>
    requires 2 <= size <= |buf|
  {
    if size == 2 || At(buf, 2) != COMMA then None
    else
      var a := ScanHex(buf, 3, size - 3, 0);
      if At(buf, a.at) != COMMA then None else Some(a.value)
  }

  function InsertBreakpoint(cpu: Cpu, buf: seq<u8>, size: nat): (h: Handled)
    requires cpu.Valid() && 2 <= size <= |buf|
    ensures !h.Exit? ==> SameShape(cpu, h.cpu)
  {
    match BreakpointAddress(buf, size)
    case None => Exit
    case Some(addr) =>
      var (ctl, ok) := Control.SetBreakpoint(cpu.ctl, addr);
      ReplyText(cpu.(ctl := ctl), if ok then "OK" else "")
  }

  function RemoveBreakpoint(cpu: Cpu, buf: seq<u8>, size: nat): (h: Handled)
    requires cpu.Valid() && 2 <= size <= |buf|
    ensures !h.Exit? ==> SameShape(cpu, h.cpu)
  {
    match BreakpointAddress(buf, size)
    case None => Exit
    case Some(addr) =>
      var (ctl, ok) := Control.ClearBreakpoint(cpu.ctl, addr);
      ReplyText(cpu.(ctl := ctl), if ok then "OK" else "")
  }

  // ----- dispatch -----

  predicate IsPrefix(prefix: string, buf: seq<u8>, size: nat)
    requires size <= |buf|
  {
    size >= |prefix| && buf[..|prefix|] == Ascii(prefix)
  }

  function HandlePacket(cpu: Cpu, buf: seq<u8>, size: nat): (h: Handled)
    requires cpu.Valid() && size <= |buf|
    ensures !h.Exit? ==> SameShape(cpu, h.cpu)
  {
    if IsPrefix("qSupported", buf, size) then ReplyText(cpu, "hwbreak+")
    else if IsPrefix("?", buf, size) then ReplyText(cpu, "S05")
    else if IsPrefix("qAttached", buf, size) then ReplyText(cpu, "1")
    else if IsPrefix("g", buf, size) then ReadRegisters(cpu)
    else if IsPrefix("G", buf, size) then WriteRegisters(cpu, buf, size)
    else if IsPrefix("P", buf, size) then WriteRegister(cpu, buf, size)
    else if IsPrefix("m", buf, size) then ReadMemory(cpu, buf, size)
    else if IsPrefix("M", buf, size) then WriteMemory(cpu, buf, size)
    else if IsPrefix("Z0", buf, size) then InsertBreakpoint(cpu, buf, size)
    else if IsPrefix("z0", buf, size) then RemoveBreakpoint(cpu, buf, size)
    else if IsPrefix("c", buf, size) then Silent(cpu.(ctl := Control.Resume(cpu.ctl)))
    else if IsPrefix("D", buf, size) then
      ReplyText(cpu.(ctl := Control.Resume(Control.ClearAllBreakpoints(cpu.ctl))), "OK")
    else if IsPrefix("k", buf, size) then Silent(Core.ResetState(cpu.mem))
    else ReplyText(cpu, "")
  }

  lemma PrefixFits(prefix: string, buf: seq<u8>, size: nat)
    requires size <= |buf|
    ensures IsPrefix(prefix, buf, size) ==> |prefix| <= size
  {
  }

  // ----- what the number loop computes -----

  predicate AllHex(s: seq<u8>) {
    forall i :: 0 <= i < |s| ==> IsHexDigit(s[i])
  }

  /** The written hexadecimal number, continued from acc. */
  function HexNumber(s: seq<u8>, acc: nat): nat
    requires AllHex(s)
  {
    if s == [] then acc else HexNumber(s[1..], 0x10 * acc + FromHexDigit(s[0]).value)
  }

  lemma AppendDigit(value: u32, d: u8)
    requires d < 16
    ensures Or32(Shl(value, 4), d) == Wrap(0x10 * value + d)
  {
    hide Or, Pow2;
    Pow2Values();
    var x := Shl(value, 4);
    assert x % 0x10 == 0;
    OrCommutes(x, d);
    Immediates.Join(d, x, 4, 0x10, x / 0x10);
  }

  lemma {:induction false} HexNumberWraps(s: seq<u8>, a: nat, b: nat)
    requires AllHex(s) && Wrap(a) == Wrap(b)
    ensures Wrap(HexNumber(s, a)) == Wrap(HexNumber(s, b))
  {
    if s != [] {
      var d := FromHexDigit(s[0]).value;
      SameMultiple(a, b, d);
      HexNumberWraps(s[1..], 0x10 * a + d, 0x10 * b + d);
    }
  }

  lemma SameMultiple(a: nat, b: nat, d: nat)
    requires Wrap(a) == Wrap(b)
    ensures Wrap(0x10 * a + d) == Wrap(0x10 * b + d)
  {
    var k := a / TWO_32 - b / TWO_32;
    DivideUnique(0x10 * a + d, TWO_32, (0x10 * b + d) / TWO_32 + 0x10 * k, (0x10 * b + d) % TWO_32);
  }

  /** The loop reads exactly a run of digits s and computes its number modulo 2^32. */
  lemma {:induction false} ScanReads(buf: seq<u8>, at: nat, left: nat, value: u32, s: seq<u8>)
    requires AllHex(s) && |s| <= left && at + |s| <= |buf| && buf[at..at + |s|] == s
    requires left == |s| || !IsHexDigit(At(buf, at + |s|))
    ensures ScanHex(buf, at, left, value) == Scan(Wrap(HexNumber(s, value)), at + |s|, left - |s|)
    decreases |s|
  {
    hide Or32, Shl;
    if s != [] {
      assert buf[at] == s[0];
      var d := FromHexDigit(s[0]).value;
      AppendDigit(value, d);
      assert buf[at + 1..at + 1 + |s[1..]|] == s[1..];
      ScanReads(buf, at + 1, left - 1, Wrap(0x10 * value + d), s[1..]);
      HexNumberWraps(s[1..], Wrap(0x10 * value + d), 0x10 * value + d);
    }
  }
}
