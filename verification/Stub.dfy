/**
 The GDB stub in place: the packet buffer, the command handlers and the byte
 receiver of gdb_stub/rsp.h as objects, proved against Packet, Commands and
 Receiver.  A false or Fatal result stands for RSP_FATAL, which ends the process.
 */
module Stub {
  import opened Words
  import opened Hex
  import P = Packet
  import K = Commands
  import R = Receiver
  import Control
  import Memory
  import Core
  import Machine

  class RspPacket {
    const buffer: array<u8>
    var ptr: nat
    var checksum: u8

    ghost predicate Valid()
      reads this
    {
      buffer.Length == P.SIZE && ptr <= P.SIZE
    }

    ghost function View(): P.Writer
      requires Valid()
      reads this, buffer
    {
      P.Writer(buffer[..ptr], checksum)
    }

    /** rsp_packet_begin. */
    constructor ()
      ensures Valid() && fresh(buffer) && View() == P.Begin()
    {
      buffer := new u8[P.SIZE](_ => 0);
      ptr := 1;
      checksum := 0;
      new;
      buffer[0] := P.DOLLAR;
    }

    method AppendByteRaw(b: u8) returns (ok: bool)
      requires Valid()
      modifies this, buffer
      ensures Valid()
      ensures var r := P.AppendRaw(old(View()), b); ok == r.Some? && (ok ==> View() == r.value)
    {
      if ptr >= P.SIZE { return false; }
      buffer[ptr] := b;
      ptr := ptr + 1;
      checksum := (checksum as int + b) % 0x100;
      ok := true;
    }

    method Append(data: seq<u8>) returns (ok: bool)
      requires Valid()
      modifies this, buffer
      ensures Valid()
      ensures var r := P.AppendText(old(View()), data); ok == r.Some? && (ok ==> View() == r.value)
    {
      hide P.AppendRaw, P.Flip;
      var i := 0;
      while i < |data|
        invariant i <= |data| && Valid()
        invariant P.AppendText(old(View()), data) == P.AppendText(View(), data[i..])
      {
        assert data[i..][1..] == data[i + 1..];
        if ptr >= P.SIZE { return false; }
        var c := data[i];
        i := i + 1;
        if P.Special(c) {
          ok := AppendByteRaw(P.ESCAPE);
          if !ok { return; }
          c := P.Flip(c);
        }
        ok := AppendByteRaw(c);
        if !ok { return; }
      }
      ok := true;
    }

    method AppendU8(b: u8) returns (ok: bool)
      requires Valid()
      modifies this, buffer
      ensures Valid()
      ensures var r := P.AppendU8(old(View()), b); ok == r.Some? && (ok ==> View() == r.value)
    {
      hide P.AppendRaw, And, Shr;
      var high := ToHexDigit(And(Shr(b, 4), 0xf));
      if high.None? { return false; }
      ok := AppendByteRaw(high.value);
      if !ok { return; }
      var low := ToHexDigit(And(b, 0xf));
      if low.None? { return false; }
      ok := AppendByteRaw(low.value);
    }

    method AppendU32(w: u32) returns (ok: bool)
      requires Valid()
      modifies this, buffer
      ensures Valid()
      ensures var r := P.AppendBytes(old(View()), Memory.ToBytes(w, 4)); ok == r.Some? && (ok ==> View() == r.value)
    {
      hide P.AppendU8, And, Shr;
      ghost var bytes := Memory.ToBytes(w, 4);
      WordBytes(w);
      for k := 0 to 4
        invariant Valid() && P.AppendBytes(old(View()), bytes[..k]) == Some(View())
      {
        assert bytes[..k + 1][..k] == bytes[..k];
        ok := AppendU8(And(Shr(w, 8 * k), 0xff));
        if !ok {
          P.AppendBytesPrefix(old(View()), bytes, k + 1);
          return;
        }
      }
      assert bytes[..4] == bytes;
      ok := true;
    }

    method End() returns (ok: bool)
      requires Valid()
      modifies this, buffer
      ensures Valid()
      ensures var r := P.End(old(View())); ok == r.Some? && (ok ==> View() == r.value)
    {
      hide P.AppendRaw, P.AppendU8;
      var saved := checksum;
      ok := AppendByteRaw(P.HASH);
      if !ok { return; }
      ok := AppendU8(saved);
      if !ok { return; }
      ok := AppendByteRaw(0);
    }
  }

  lemma WordBytes(w: u32)
    ensures forall k: nat :: k < 4 ==> Memory.ToBytes(w, 4)[k] == And(Shr(w, 8 * k), 0xff)
  {
    Memory.FourBytes(w);
    Memory.BytesByShift(w);
  }

  // ----- what one-chunk packets are -----

  lemma EmitOne(chunk: P.Chunk)
    ensures P.Emit([chunk]) == Finished(match chunk
                                        case Text(data) => P.AppendText(P.Begin(), data)
                                        case Bytes(bytes) => P.AppendBytes(P.Begin(), bytes))
  {
    hide P.AppendText, P.AppendBytes, P.End, P.CString;
    assert [chunk][..|[chunk]| - 1] == [];
    assert P.AppendChunks(P.Begin(), []) == Some(P.Begin());
    assert P.AppendChunks(P.Begin(), [chunk])
        == match chunk
           case Text(data) => P.AppendText(P.Begin(), data)
           case Bytes(bytes) => P.AppendBytes(P.Begin(), bytes);
  }

  /** What is sent once the body is written. */
  function Finished(p: Option<P.Writer>): Option<seq<u8>> {
    match p
    case None => None
    case Some(p) =>
      match P.End(p)
      case None => None
      case Some(q) => Some(P.CString(q.filled))
  }

  lemma {:induction false} CStringStops(s: seq<u8>, t: seq<u8>)
    requires 0 in s
    ensures P.CString(s + t) == P.CString(s)
  {
    assert (s + t)[0] == s[0] && (s + t)[1..] == s[1..] + t;
    if s[0] != 0 { CStringStops(s[1..], t); }
  }

  datatype Outcome = Fatal | NoPacket | Sent(packet: seq<u8>)

  /** The outcome and the machine left behind are those of the specification; after Fatal there is none. */
  predicate Meets(h: K.Handled, o: Outcome, cpu: Core.Cpu) {
    match h
    case Exit => o.Fatal?
    case Silent(c) => o.NoPacket? && cpu == c
    case Replied(c, packet) => o == Sent(packet) && cpu == c
  }

  class RspStub {
    const rv32: Machine.RV32
    const inBuffer: array<u8>
    var iptr: nat
    var sum1: u8
    var sum2: u8
    var state: R.State
    var sent: seq<seq<u8>>

    ghost predicate Valid()
      reads this
    {
      rv32.Valid() && inBuffer.Length == P.SIZE && iptr <= P.SIZE && inBuffer != rv32.mem
    }

    ghost function View(): (s: R.Stub)
      requires Valid()
      reads this, inBuffer, rv32, rv32.bp, rv32.r, rv32.mem
      ensures s.Valid()
    {
      R.Stub(rv32.View(), state, inBuffer[..], iptr, sum1, sum2, sent)
    }

    constructor (rv32: Machine.RV32)
      requires rv32.Valid()
      ensures Valid() && this.rv32 == rv32 && fresh(inBuffer)
      ensures View() == R.Stub(rv32.View(), R.WaitStart, seq(P.SIZE, _ => 0), 0, 0, 0, [])
    {
      this.rv32 := rv32;
      inBuffer := new u8[P.SIZE](_ => 0);
      iptr, sum1, sum2, state, sent := 0, 0, 0, R.WaitStart, [];
      new;
      assert inBuffer[..] == seq(P.SIZE, _ => 0);
    }

    // ----- replies -----

    /** rsp_packet_end and rsp_packet_send. */
    static method Finish(p: RspPacket) returns (o: Outcome)
      requires p.Valid() && 1 <= p.ptr
      modifies p, p.buffer
      ensures o == match Finished(Some(old(p.View()))) case None => Fatal case Some(packet) => Sent(packet)
    {
      hide P.AppendRaw, P.AppendU8, P.CString;
      ghost var before := p.View();
      var ok := p.End();
      if !ok { return Fatal; }
      EndsInNul(before);
      assert p.buffer[..] == p.buffer[..p.ptr] + p.buffer[p.ptr..];
      CStringStops(p.buffer[..p.ptr], p.buffer[p.ptr..]);
      o := Sent(P.CString(p.buffer[..]));
    }

    static method QuickSend(text: string) returns (o: Outcome)
      ensures forall cpu :: Meets(K.ReplyText(cpu, text), o, cpu)
      ensures !o.NoPacket?
    {
      hide P.AppendText, P.Emit, Finished;
      var p := new RspPacket();
      EmitOne(P.Text(K.Ascii(text)));
      var ok := p.Append(K.Ascii(text));
      if !ok {
        NothingFinished();
        return Fatal;
      }
      StillBegun(K.Ascii(text));
      o := Finish(p);
    }

    // ----- registers -----

    method ReadRegisters() returns (o: Outcome)
      requires Valid()
      ensures Meets(K.ReadRegisters(rv32.View()), o, rv32.View())
    {
      hide P.AppendBytes, P.Emit, Finished, Memory.ToBytes;
      ghost var cpu := rv32.View();
      var p := new RspPacket();
      P.BeginIsConsistent();
      NothingAppended(p.View());
      for i := 0 to 32
        invariant p.Valid() && Some(p.View()) == P.AppendBytes(P.Begin(), K.RegisterImage(cpu, i))
        invariant P.Consistent(p.View()) && p.ptr == 1 + 8 * i
      {
        P.BytesFit(p.View(), Memory.ToBytes(rv32.r[i], 4));
        P.AppendBytesConcat(P.Begin(), K.RegisterImage(cpu, i), Memory.ToBytes(rv32.r[i], 4));
        var _ := p.AppendU32(rv32.r[i]);
      }
      P.BytesFit(p.View(), Memory.ToBytes(rv32.pc, 4));
      P.AppendBytesConcat(P.Begin(), K.RegisterImage(cpu, 32), Memory.ToBytes(rv32.pc, 4));
      var _ := p.AppendU32(rv32.pc);
      EmitOne(P.Bytes(K.RegisterImage(cpu, 33)));
      o := Finish(p);
    }

    method WriteRegisters(size: nat) returns (o: Outcome)
      requires Valid() && size <= P.SIZE
      modifies rv32`pc, rv32.r
      ensures Meets(K.WriteRegisters(old(rv32.View()), inBuffer[..], size), o, rv32.View())
    {
      hide HexToU32, K.ReplyText;
      if size != 265 { return Fatal; }
      ghost var buf := inBuffer[..];
      for i := 0 to 32
        modifies rv32.r
        invariant K.ParseRegisters(buf, i) == Some(rv32.r[..i])
        invariant rv32.Control() == old(rv32.Control())
      {
        var v := HexToU32(inBuffer[8 * i + 1..8 * i + 9]);
        assert buf[8 * (i + 1) - 7..8 * (i + 1) + 1] == inBuffer[8 * i + 1..8 * i + 9];
        if v.None? {
          ParseStops(buf, i + 1, 33);
          return Fatal;
        }
        rv32.r[i] := v.value;
        assert rv32.r[..i + 1] == rv32.r[..i] + [v.value];
      }
      var v := HexToU32(inBuffer[257..265]);
      assert buf[257..265] == inBuffer[257..265];
      if v.None? { return Fatal; }
      ghost var regs := rv32.r[..];
      assert rv32.r[..32] == regs && (regs + [v.value])[..32] == regs;
      rv32.pc := v.value;
      o := QuickSend("");
    }

    method WriteRegister(size: nat) returns (o: Outcome)
      requires Valid() && size <= P.SIZE
      modifies rv32`pc, rv32.r
      ensures Meets(K.WriteRegister(old(rv32.View()), inBuffer[..], size), o, rv32.View())
    {
      hide HexToU8, HexToU32, K.ReplyText;
      if size != 12 { return Fatal; }
      var reg := HexToU8(inBuffer[1], inBuffer[2]);
      if reg.None? { return Fatal; }
      assert inBuffer[..][4..12] == inBuffer[4..12];
      var val := HexToU32(inBuffer[4..12]);
      if val.None? { return Fatal; }
      if reg.value > 32 {
        return Fatal;
      } else if reg.value == 32 {
        rv32.pc := val.value;
      } else {
        rv32.r[reg.value] := val.value;
        assert rv32.r[..] == old(rv32.r[..])[reg.value := val.value];
      }
      o := QuickSend("OK");
    }

    // ----- memory -----

    /** The hexadecimal loop that five commands share. */
    method ScanHex(start: nat, size: nat) returns (value: u32, at: nat, left: nat)
      requires Valid()
      ensures K.Scan(value, at, left) == K.ScanHex(inBuffer[..], start, size, 0)
    {
      hide Or32, Shl, FromHexDigit, IsHexDigit;
      value, at, left := 0, start, size;
      while IsHexDigit(K.At(inBuffer[..], at)) && left != 0
        invariant K.ScanHex(inBuffer[..], at, left, value) == K.ScanHex(inBuffer[..], start, size, 0)
        decreases left
      {
        value := Shl(value, 4);
        value := Or32(value, FromHexDigit(K.At(inBuffer[..], at)).value);
        at, left := at + 1, left - 1;
      }
    }

    method ReadMemory(size: nat) returns (o: Outcome)
      requires Valid() && 1 <= size <= P.SIZE
      ensures Meets(K.ReadMemory(rv32.View(), inBuffer[..], size), o, rv32.View())
    {
      hide K.ScanHex, IsHexDigit, K.ReplyText, K.ReadRam, P.AppendBytes, P.AppendU8, P.Emit, Finished, Wrap;
      if !IsHexDigit(K.At(inBuffer[..], 1)) { return Fatal; }
      var start, at, left := ScanHex(1, size - 1);
      if left == 0 || K.At(inBuffer[..], at) != K.COMMA { return Fatal; }
      var chunk, at', left' := ScanHex(at + 1, left - 1);
      if left' != 0 { return Fatal; }
      if start >= rv32.mem.Length || Wrap(start as int + chunk) >= rv32.mem.Length {
        o := QuickSend("");
        return;
      }
      ghost var bytes := K.ReadRam(rv32.mem[..], start, chunk);
      var p := new RspPacket();
      P.BeginIsConsistent();
      NothingAppended(p.View());
      EmitOne(P.Bytes(bytes));
      for i := 0 to chunk
        invariant p.Valid() && Some(p.View()) == P.AppendBytes(P.Begin(), bytes[..i])
      {
        AppendNext(P.Begin(), bytes, i);
        var ok := p.AppendU8(K.At(rv32.mem[..], Wrap(start as int + i)));
        if !ok {
          P.AppendBytesPrefix(P.Begin(), bytes, i + 1);
          NothingFinished();
          return Fatal;
        }
      }
      assert bytes[..chunk] == bytes;
      P.BytesFit(P.Begin(), bytes);
      o := Finish(p);
    }

    method WriteMemory(size: nat) returns (o: Outcome)
      requires Valid() && 1 <= size <= P.SIZE
      modifies rv32.mem
      ensures Meets(K.WriteMemory(old(rv32.View()), inBuffer[..], size), o, rv32.View())
    {
      hide K.ScanHex, IsHexDigit, K.ReplyText, HexToU8, Wrap;
      if !IsHexDigit(K.At(inBuffer[..], 1)) { return Fatal; }
      var start, at, left := ScanHex(1, size - 1);
      if left == 0 || K.At(inBuffer[..], at) != K.COMMA { return Fatal; }
      var chunk, at', left' := ScanHex(at + 1, left - 1);
      if K.At(inBuffer[..], at') != K.COLON { return Fatal; }
      var rest := (left' - 1) % K.SIZE_T;
      if rest != Wrap(2 * chunk as int) { return Fatal; }
      if start >= rv32.mem.Length || Wrap(start as int + chunk) >= rv32.mem.Length {
        o := QuickSend("");
        return;
      }
      ghost var buf, ram := inBuffer[..], rv32.mem[..];
      for i := 0 to chunk
        invariant inBuffer[..] == buf
        invariant K.WriteRam(ram, buf, at' + 1, start, 0, chunk)
               == K.WriteRam(rv32.mem[..], buf, at' + 1, start, i, chunk)
      {
        var b := HexToU8(K.At(inBuffer[..], at' + 1 + 2 * i), K.At(inBuffer[..], at' + 1 + 2 * i + 1));
        if b.None? { return Fatal; }
        var k := Wrap(start as int + i);
        ghost var before := rv32.mem[..];
        if k < rv32.mem.Length {
          rv32.mem[k] := b.value;
          assert rv32.mem[..] == before[k := b.value];
        }
      }
      o := QuickSend("");
    }

    // ----- breakpoints and run control -----

    method BreakpointAddress(size: nat) returns (addr: Option<u32>)
      requires Valid() && 2 <= size <= P.SIZE
      ensures addr == K.BreakpointAddress(inBuffer[..], size)
    {
      hide K.ScanHex;
      if size == 2 || K.At(inBuffer[..], 2) != K.COMMA { return None; }
      var value, at, left := ScanHex(3, size - 3);
      if K.At(inBuffer[..], at) != K.COMMA { return None; }
      addr := Some(value);
    }

    method InsertBreakpoint(size: nat) returns (o: Outcome)
      requires Valid() && 2 <= size <= P.SIZE
      modifies rv32`bpMask, rv32.bp
      ensures Meets(K.InsertBreakpoint(old(rv32.View()), inBuffer[..], size), o, rv32.View())
    {
      hide K.BreakpointAddress, K.ReplyText, Control.SetBreakpoint;
      var addr := BreakpointAddress(size);
      if addr.None? { return Fatal; }
      var ok := rv32.SetBreakpoint(addr.value);
      if ok { o := QuickSend("OK"); } else { o := QuickSend(""); }
    }

    method RemoveBreakpoint(size: nat) returns (o: Outcome)
      requires Valid() && 2 <= size <= P.SIZE
      modifies rv32`bpMask, rv32.bp
      ensures Meets(K.RemoveBreakpoint(old(rv32.View()), inBuffer[..], size), o, rv32.View())
    {
      hide K.BreakpointAddress, K.ReplyText, Control.ClearBreakpoint;
      var addr := BreakpointAddress(size);
      if addr.None? { return Fatal; }
      var ok := rv32.ClearBreakpoint(addr.value);
      if ok { o := QuickSend("OK"); } else { o := QuickSend(""); }
    }

    method Detach() returns (o: Outcome)
      requires Valid()
      modifies rv32, rv32.bp
      ensures var ctl := Control.Resume(Control.ClearAllBreakpoints(old(rv32.Control())));
        Meets(K.ReplyText(old(rv32.View()).(ctl := ctl), "OK"), o, rv32.View())
    {
      hide K.ReplyText;
      rv32.ClearAllBreakpoints();
      rv32.Resume();
      o := QuickSend("OK");
    }

    method IsPrefix(prefix: string, size: nat) returns (yes: bool)
      requires Valid() && size <= P.SIZE
      ensures yes == K.IsPrefix(prefix, inBuffer[..], size)
    {
      if size < |prefix| { return false; }
      assert inBuffer[..][..|prefix|] == inBuffer[..|prefix|];
      yes := inBuffer[..|prefix|] == K.Ascii(prefix);
    }

    method HandlePacket(size: nat) returns (o: Outcome)
      requires Valid() && size <= P.SIZE
      modifies rv32, rv32.bp, rv32.r, rv32.mem
      ensures Meets(K.HandlePacket(old(rv32.View()), inBuffer[..], size), o, rv32.View())
    {
      hide K.IsPrefix, K.ReplyText, K.ReadRegisters, K.WriteRegisters, K.WriteRegister, K.ReadMemory, K.WriteMemory,
           K.InsertBreakpoint, K.RemoveBreakpoint, Control.ClearAllBreakpoints, Core.ResetState;
      var yes := IsPrefix("qSupported", size);
      if yes { o := QuickSend("hwbreak+"); return; }
      yes := IsPrefix("?", size);
      if yes { o := QuickSend("S05"); return; }
      yes := IsPrefix("qAttached", size);
      if yes { o := QuickSend("1"); return; }
      yes := IsPrefix("g", size);
      if yes { o := ReadRegisters(); return; }
      yes := IsPrefix("G", size);
      if yes { o := WriteRegisters(size); return; }
      yes := IsPrefix("P", size);
      if yes { o := WriteRegister(size); return; }
      yes := IsPrefix("m", size);
      if yes { K.PrefixFits("m", inBuffer[..], size); o := ReadMemory(size); return; }
      yes := IsPrefix("M", size);
      if yes { K.PrefixFits("M", inBuffer[..], size); o := WriteMemory(size); return; }
      yes := IsPrefix("Z0", size);
      if yes { K.PrefixFits("Z0", inBuffer[..], size); o := InsertBreakpoint(size); return; }
      yes := IsPrefix("z0", size);
      if yes { K.PrefixFits("z0", inBuffer[..], size); o := RemoveBreakpoint(size); return; }
      yes := IsPrefix("c", size);
      if yes { rv32.Resume(); o := NoPacket; return; }
      yes := IsPrefix("D", size);
      if yes { o := Detach(); return; }
      yes := IsPrefix("k", size);
      if yes { rv32.Reset(); o := NoPacket; return; }
      o := QuickSend("");
    }

    // ----- the receiver -----

    method Send(packet: seq<u8>)
      requires Valid()
      modifies this`sent
      ensures sent == old(sent) + [packet]
    {
      sent := sent + [packet];
    }

    /** The end of the second checksum digit's case. */
    method CloseFrame(junk: bool) returns (ok: bool)
      requires Valid()
      modifies this, rv32, rv32.bp, rv32.r, rv32.mem
      ensures Valid()
      ensures var r := R.CloseFrame(old(View()), junk); ok == r.Some? && (ok ==> View() == r.value)
    {
      hide K.HandlePacket;
      var packetSent := junk;
      if sum1 == sum2 {
        Send([R.PLUS]);
        var o := HandlePacket(iptr);
        match o {
          case Fatal => return false;
          case NoPacket => packetSent := false;
          case Sent(packet) =>
            Send(packet);
            packetSent := true;
        }
      } else {
        Send([R.MINUS]);
      }
      state := if packetSent then R.WaitAck else R.WaitStart;
      ok := true;
    }

    /** rsp_handle_byte; junk is what the unset handler_result holds.  A false result is RSP_FATAL. */
    method HandleByte(c: u8, junk: bool) returns (ok: bool)
      requires Valid()
      modifies this, inBuffer, rv32, rv32.bp, rv32.r, rv32.mem
      ensures Valid()
      ensures var r := R.HandleByte(old(View()), c, junk); ok == r.Some? && (ok ==> View() == r.value)
    {
      hide K.HandlePacket, K.ReplyText, FromHexDigit, Or;
      ok := true;
      match state
      case WaitStart =>
        iptr, sum1, sum2 := 0, 0, 0;
        if c == P.DOLLAR {
          state := R.PacketData;
        } else if c == R.ETX {
          rv32.status := Memory.Paused;
          var o := QuickSend("S02");
          if o.Fatal? { return false; }
          Send(o.packet);
        }
      case PacketData =>
        if c == P.HASH {
          state := R.Checksum1;
        } else if iptr < P.SIZE {
          inBuffer[iptr] := c;
          iptr := iptr + 1;
          sum1 := (sum1 as int + c) % 0x100;
        } else {
          return false;
        }
      case Checksum1 =>
        var d := FromHexDigit(c);
        if d.None? { return false; }
        sum2 := d.value * 0x10;
        state := R.Checksum2;
      case Checksum2 =>
        var d := FromHexDigit(c);
        if d.None? { return false; }
        sum2 := Or(sum2, d.value) % 0x100;
        ok := CloseFrame(junk);
      case WaitAck =>
        if c == R.PLUS { state := R.WaitStart; } else { return false; }
    }
  }

  lemma NothingAppended(p: P.Writer)
    ensures P.AppendBytes(p, []) == Some(p)
  {
  }

  lemma AppendNext(p: P.Writer, bytes: seq<u8>, i: nat)
    requires i < |bytes|
    ensures P.AppendBytes(p, bytes[..i + 1])
         == match P.AppendBytes(p, bytes[..i]) case None => None case Some(q) => P.AppendU8(q, bytes[i])
  {
    hide P.AppendU8;
    assert bytes[..i + 1][..i] == bytes[..i];
  }

  /** A digit that is no digit stops the parse at any later register. */
  lemma {:induction false} ParseStops(buf: seq<u8>, k: nat, n: nat)
    requires 1 + 8 * n <= |buf| && k <= n && K.ParseRegisters(buf, k).None?
    ensures K.ParseRegisters(buf, n).None?
    decreases n
  {
    hide HexToU32;
    if k < n { ParseStops(buf, k, n - 1); }
  }

  lemma NothingFinished()
    ensures Finished(None) == None
  {
  }

  lemma EndsInNul(p: P.Writer)
    ensures P.End(p).Some? ==> 0 in P.End(p).value.filled
  {
    hide P.AppendU8;
  }

  lemma StillBegun(data: seq<u8>)
    ensures P.AppendText(P.Begin(), data).Some? ==> |P.AppendText(P.Begin(), data).value.filled| >= 1
  {
    P.BeginIsConsistent();
    P.TextIsEscape(P.Begin(), data);
    P.AppendAllFits(P.Begin(), P.Escape(data));
  }
}
