/** Round trips through the memory and register commands, and what stale buffer bytes can do. */
module CommandLaws {
  import opened Words
  import opened Hex
  import opened Packet
  import opened Commands
  import Core
  import Control
  import Memory
  import opened Breakpoints

  // ----- dispatch -----

  lemma FirstByte(prefix: string, buf: seq<u8>, size: nat)
    requires size <= |buf| && |prefix| > 0 && IsPrefix(prefix, buf, size)
    ensures size > 0 && buf[0] == prefix[0] as int % 0x100
  {
    assert buf[..|prefix|][0] == Ascii(prefix)[0];
  }

  lemma OneLetter(letter: char, buf: seq<u8>, size: nat)
    requires 0 < size <= |buf|
    ensures IsPrefix([letter], buf, size) <==> buf[0] == letter as int % 0x100
  {
    assert buf[..1] == [buf[0]];
    assert Ascii([letter]) == [letter as int % 0x100];
  }

  /** The prefixes that a packet's first byte decides or rules out. */
  lemma FirstLetters(buf: seq<u8>, size: nat)
    requires 0 < size <= |buf|
    ensures IsPrefix("?", buf, size) <==> buf[0] == '?' as int
    ensures IsPrefix("g", buf, size) <==> buf[0] == 'g' as int
    ensures IsPrefix("G", buf, size) <==> buf[0] == 'G' as int
    ensures IsPrefix("P", buf, size) <==> buf[0] == 'P' as int
    ensures IsPrefix("m", buf, size) <==> buf[0] == 'm' as int
    ensures IsPrefix("M", buf, size) <==> buf[0] == 'M' as int
    ensures IsPrefix("c", buf, size) <==> buf[0] == 'c' as int
    ensures IsPrefix("D", buf, size) <==> buf[0] == 'D' as int
    ensures IsPrefix("k", buf, size) <==> buf[0] == 'k' as int
    ensures IsPrefix("qSupported", buf, size) || IsPrefix("qAttached", buf, size) ==> buf[0] == 'q' as int
    ensures IsPrefix("Z0", buf, size) ==> buf[0] == 'Z' as int
    ensures IsPrefix("z0", buf, size) ==> buf[0] == 'z' as int
  {
    hide IsPrefix;
    OneLetter('?', buf, size);
    OneLetter('g', buf, size);
    OneLetter('G', buf, size);
    OneLetter('P', buf, size);
    OneLetter('m', buf, size);
    OneLetter('M', buf, size);
    OneLetter('c', buf, size);
    OneLetter('D', buf, size);
    OneLetter('k', buf, size);
    if IsPrefix("qSupported", buf, size) { FirstByte("qSupported", buf, size); }
    if IsPrefix("qAttached", buf, size) { FirstByte("qAttached", buf, size); }
    if IsPrefix("Z0", buf, size) { FirstByte("Z0", buf, size); }
    if IsPrefix("z0", buf, size) { FirstByte("z0", buf, size); }
  }

  /** A packet whose first byte is the letter of a one-letter command is dispatched to it. */
  lemma Dispatches(cpu: Cpu, buf: seq<u8>, size: nat)
    requires cpu.Valid() && 0 < size <= |buf|
    ensures buf[0] == 'm' as int ==> HandlePacket(cpu, buf, size) == ReadMemory(cpu, buf, size)
    ensures buf[0] == 'M' as int ==> HandlePacket(cpu, buf, size) == WriteMemory(cpu, buf, size)
    ensures buf[0] == 'P' as int ==> HandlePacket(cpu, buf, size) == WriteRegister(cpu, buf, size)
    ensures buf[0] == 'g' as int ==> HandlePacket(cpu, buf, size) == ReadRegisters(cpu)
    ensures buf[0] == 'G' as int ==> HandlePacket(cpu, buf, size) == WriteRegisters(cpu, buf, size)
  {
    hide IsPrefix, ReadMemory, WriteMemory, WriteRegister, ReadRegisters, WriteRegisters, InsertBreakpoint,
         RemoveBreakpoint, ReplyText;
    FirstLetters(buf, size);
  }

  // ----- replies -----

  lemma {:induction false} EscapePlain(s: seq<u8>)
    requires forall c :: c in s ==> !Special(c)
    ensures Escape(s) == s
  {
    if s != [] {
      assert s[0] in s && forall c :: c in s[1..] ==> c in s;
      EscapePlain(s[1..]);
      assert s == [s[0]] + s[1..];
    }
  }

  /** Text without NUL and special characters is sent as it is. */
  lemma ReplyOfPlain(cpu: Cpu, text: string)
    requires |text| <= 1019 && forall c :: c in Ascii(text) ==> c != 0 && !Special(c)
    ensures ReplyText(cpu, text) == Replied(cpu, Frame(Ascii(text)))
  {
    hide Emit, Escape, Frame, Special, Ascii;
    var chunks := [Text(Ascii(text))];
    assert chunks[..0] == [];
    EscapePlain(Ascii(text));
    assert Body([]) + BodyOf(chunks[0]) == Ascii(text);
    EmitIsFrame(chunks);
  }

  lemma ReplyOfNothing(cpu: Cpu)
    ensures ReplyText(cpu, "") == Replied(cpu, Frame([]))
  {
    hide ReplyText, Frame;
    assert Ascii("") == [];
    ReplyOfPlain(cpu, "");
  }

  lemma ReplyOfOk(cpu: Cpu)
    ensures ReplyText(cpu, "OK") == Replied(cpu, Frame(Ascii("OK")))
  {
    hide ReplyText, Frame;
    assert Ascii("OK") == [0x4f, 0x4b];
    ReplyOfPlain(cpu, "OK");
  }

  lemma ReplyOfBytes(cpu: Cpu, bytes: seq<u8>)
    ensures Reply(cpu, [Bytes(bytes)]) == if |bytes| <= 509 then Replied(cpu, Frame(HexOf(bytes))) else Exit
  {
    hide Emit, HexOf, Frame;
    assert [Bytes(bytes)][..0] == [];
    assert Body([]) + BodyOf(Bytes(bytes)) == HexOf(bytes);
    HexIsClean(bytes);
    EmitIsFrame([Bytes(bytes)]);
  }

  // ----- run control -----

  /** What resuming leaves as status. */
  function Resumed(status: Memory.Status): Memory.Status {
    if status == Memory.Paused then Memory.Running else status
  }

  /** `?` reports a trap; `c` starts a paused machine, without a reply; `D` does so too after removing every
      breakpoint, and answers OK; `k` resets, without a reply.  Nothing else changes. */
  lemma RunControlCommands(cpu: Cpu, buf: seq<u8>, size: nat)
    requires cpu.Valid() && 0 < size <= |buf|
    ensures var h := HandlePacket(cpu, buf, size);
      && (buf[0] == '?' as int ==> h == Replied(cpu, Frame(Ascii("S05"))))
      && (buf[0] == 'c' as int ==> h == Silent(cpu.(ctl := cpu.ctl.(status := Resumed(cpu.ctl.status)))))
      && (buf[0] == 'D' as int ==>
            && h.Replied? && h.packet == Frame(Ascii("OK")) && Listed(h.cpu.ctl) == multiset{}
            && h.cpu == cpu.(ctl := cpu.ctl.(status := Resumed(cpu.ctl.status), bpMask := 0, bp := h.cpu.ctl.bp)))
      && (buf[0] == 'k' as int ==> h == Silent(Core.ResetState(cpu.mem)))
  {
    hide ReplyText, Frame, Listed, IsPrefix, Core.ResetState, ReadMemory, WriteMemory, WriteRegister, ReadRegisters,
         WriteRegisters, InsertBreakpoint, RemoveBreakpoint;
    FirstLetters(buf, size);
    assert Ascii("S05") == [0x53, 0x30, 0x35];
    ReplyOfPlain(cpu, "S05");
    var d := Control.ClearAllBreakpoints(cpu.ctl);
    ClearAllEmpties(cpu.ctl);
    ResumeKeepsList(d);
    ReplyOfOk(cpu.(ctl := Control.Resume(d)));
  }

  lemma ResumeKeepsList(c: Control.Ctl)
    requires |c.bp| == 8
    ensures Listed(Control.Resume(c)) == Listed(c)
  {
  }

  const ONE_LETTER_COMMANDS: set<int> :=
    {'?' as int, 'g' as int, 'G' as int, 'P' as int, 'm' as int, 'M' as int, 'c' as int, 'D' as int, 'k' as int}

  /** The two queries are answered; whatever else no handler claims is answered with an empty packet. */
  lemma OtherPackets(cpu: Cpu, buf: seq<u8>, size: nat)
    requires cpu.Valid() && size <= |buf|
    requires size > 0 ==> buf[0] !in ONE_LETTER_COMMANDS
    requires size > 1 && buf[0] in {'Z' as int, 'z' as int} ==> buf[1] != '0' as int
    ensures HandlePacket(cpu, buf, size)
         == Replied(cpu, Frame(if IsPrefix("qSupported", buf, size) then Ascii("hwbreak+")
                               else if IsPrefix("qAttached", buf, size) then Ascii("1") else []))
  {
    hide ReplyText, Frame, Core.ResetState, ReadMemory, WriteMemory, WriteRegister, ReadRegisters,
         WriteRegisters, InsertBreakpoint, RemoveBreakpoint, IsPrefix;
    ReplyOfNothing(cpu);
    assert Ascii("hwbreak+") == [0x68, 0x77, 0x62, 0x72, 0x65, 0x61, 0x6b, 0x2b];
    ReplyOfPlain(cpu, "hwbreak+");
    assert Ascii("1") == [0x31];
    ReplyOfPlain(cpu, "1");
    if size > 0 { FirstLetters(buf, size); } else { NoPrefix(buf); }
    if size >= 2 && (IsPrefix("Z0", buf, size) || IsPrefix("z0", buf, size)) { PrefixBytes(buf, size); }
    PrefixFits("Z0", buf, size);
    PrefixFits("z0", buf, size);
  }

  lemma NoPrefix(buf: seq<u8>)
    ensures forall prefix :: IsPrefix(prefix, buf, 0) ==> prefix == ""
  {
  }

  // ----- memory commands -----

  /** The bytes that pairs of digits stand for. */
  function Decoded(t: seq<u8>): (s: seq<u8>)
    requires AllHex(t) && |t| % 2 == 0
    ensures |s| == |t| / 2
  {
    seq<u8>(|t| / 2, k requires 0 <= k < |t| / 2 => HexToU8(t[2 * k], t[2 * k + 1]).value)
  }

  lemma {:induction false} WriteRamWrites(mem: seq<u8>, buf: seq<u8>, at: nat, start: u32, k: nat, t: seq<u8>)
    requires AllHex(t) && |t| % 2 == 0 && k <= |t| / 2
    requires at + |t| <= |buf| && buf[at..at + |t|] == t
    requires start + |t| / 2 <= |mem| < TWO_32
    ensures var r, n := WriteRam(mem, buf, at, start, k, |t| / 2), |t| / 2;
      && r.Some?
      && forall i :: 0 <= i < |mem| ==>
           r.value[i] == if start + k <= i < start + n then Decoded(t)[i - start] else mem[i]
    decreases |t| / 2 - k
  {
    hide HexToU8, IsHexDigit;
    var n := |t| / 2;
    if k < n {
      assert buf[at + 2 * k] == t[2 * k] && buf[at + 2 * k + 1] == t[2 * k + 1];
      var b := HexToU8(t[2 * k], t[2 * k + 1]).value;
      assert Decoded(t)[k] == b;
      WriteRamWrites(mem[start + k := b], buf, at, start, k + 1, t);
      assert Wrap(start + k) == start + k;
      assert WriteRam(mem, buf, at, start, k, n) == WriteRam(mem[start + k := b], buf, at, start, k + 1, n);
    }
  }

  /** RAM with the decoded bytes in place. */
  function Patched(mem: seq<u8>, start: nat, bytes: seq<u8>): (m: seq<u8>)
    requires start + |bytes| <= |mem|
    ensures |m| == |mem|
  {
    mem[..start] + bytes + mem[start + |bytes|..]
  }

  /** An address and a length, both in hex. */
  predicate Spelt(d1: seq<u8>, d2: seq<u8>, start: u32, n: u32) {
    d1 != [] && AllHex(d1) && AllHex(d2) && Wrap(HexNumber(d1, 0)) == start && Wrap(HexNumber(d2, 0)) == n
  }

  lemma ScanTwo(buf: seq<u8>, size: nat, d1: seq<u8>, d2: seq<u8>, start: u32, n: u32)
    requires Spelt(d1, d2, start, n)
    requires 2 + |d1| + |d2| <= size <= |buf|
    requires buf[1..1 + |d1|] == d1 && buf[1 + |d1|] == ',' as int && buf[2 + |d1|..2 + |d1| + |d2|] == d2
    requires size == 2 + |d1| + |d2| || !IsHexDigit(buf[2 + |d1| + |d2|])
    ensures IsHexDigit(At(buf, 1))
    ensures ScanHex(buf, 1, size - 1, 0) == Scan(start, 1 + |d1|, size - 1 - |d1|)
    ensures ScanHex(buf, 2 + |d1|, size - 2 - |d1|, 0) == Scan(n, 2 + |d1| + |d2|, size - 2 - |d1| - |d2|)
  {
    hide ScanHex;
    assert buf[1] == d1[0];
    ScanReads(buf, 1, size - 1, 0, d1);
    ScanReads(buf, 2 + |d1|, size - 2 - |d1|, 0, d2);
  }

  /** The pieces of a command in the buffer. */
  lemma Pieces(buf: seq<u8>, letter: u8, d1: seq<u8>, d2: seq<u8>, rest: seq<u8>)
    requires [letter] + d1 + [',' as int] + d2 + rest <= buf
    ensures |buf| >= 2 + |d1| + |d2| + |rest| && buf[0] == letter && buf[1 + |d1|] == ',' as int
    ensures buf[1..1 + |d1|] == d1 && buf[2 + |d1|..2 + |d1| + |d2|] == d2
    ensures buf[2 + |d1| + |d2|..2 + |d1| + |d2| + |rest|] == rest
  {
    var cmd := [letter] + d1 + [',' as int] + d2 + rest;
    assert buf == cmd + buf[|cmd|..];
  }

  // The range check adds start and length in 32 bits.

  /** The sum wraps around to an address inside RAM, although the range runs past its end. */
  predicate RangeWraps(mem: seq<u8>, start: u32, n: u32) {
    start < |mem| && TWO_32 <= start + n < TWO_32 + |mem|
  }

  /** The check lets a range through exactly if it ends before the last byte of RAM or wraps; of those it
      lets through, exactly the ones that end before the last byte stay in RAM. */
  lemma RangeCheck(mem: seq<u8>, start: u32, n: u32)
    requires Memory.RamSize(mem)
    ensures !OutOfRange(mem, start, n) <==> start + n < |mem| || RangeWraps(mem, start, n)
    ensures !OutOfRange(mem, start, n) ==>
              ((forall k: nat :: k < n ==> Address(start, k) < |mem|) <==> start + n < |mem|)
  {
    if RangeWraps(mem, start, n) {
      assert Address(start, |mem| - start) >= |mem|;
    }
  }

  /** The `M` handler past its scans. */
  lemma WriteMemoryPastScans(cpu: Cpu, buf: seq<u8>, size: nat, start: u32, n: u32, at1: nat, at2: nat, left: nat)
    requires cpu.Valid() && at1 < size <= |buf| && left < SIZE_T
    requires IsHexDigit(At(buf, 1)) && At(buf, at1) == ',' as int && At(buf, at2) == ':' as int
    requires ScanHex(buf, 1, size - 1, 0) == Scan(start, at1, size - at1)
    requires ScanHex(buf, at1 + 1, size - at1 - 1, 0) == Scan(n, at2, 1 + left)
    ensures WriteMemory(cpu, buf, size)
         == if left != Wrap(2 * n) then Exit
            else if OutOfRange(cpu.mem, start, n) then ReplyText(cpu, "")
            else match WriteRam(cpu.mem, buf, at2 + 1, start, 0, n)
                 case None => Exit
                 case Some(mem) => ReplyText(cpu.(mem := mem), "")
  {
    hide ScanHex, WriteRam, ReplyText, IsHexDigit, At, OutOfRange;
  }

  /** A pair that is not two digits fails the write. */
  lemma {:induction false} WriteRamFails(mem: seq<u8>, buf: seq<u8>, at: nat, start: u32, k: nat, n: nat, j: nat)
    requires k <= j < n && HexToU8(At(buf, at + 2 * j), At(buf, at + 2 * j + 1)).None?
    ensures WriteRam(mem, buf, at, start, k, n) == None
    decreases j - k
  {
    hide HexToU8;
    if k < j && HexToU8(At(buf, at + 2 * k), At(buf, at + 2 * k + 1)).Some? {
      var i, b := Wrap(start + k), HexToU8(At(buf, at + 2 * k), At(buf, at + 2 * k + 1)).value;
      WriteRamFails(if i < |mem| then mem[i := b] else mem, buf, at, start, k + 1, n, j);
    }
  }

  /** The data of an in-range write: the decoded bytes, or none at all. */
  lemma WriteRamOfData(mem: seq<u8>, buf: seq<u8>, at: nat, start: u32, n: u32, t: seq<u8>)
    requires at + |t| <= |buf| <= SIZE && buf[at..at + |t|] == t
    requires start + n < |mem| < TWO_32 && |t| == Wrap(2 * n)
    ensures WriteRam(mem, buf, at, start, 0, n)
         == if n <= SIZE && AllHex(t) then Some(Patched(mem, start, Decoded(t))) else None
  {
    hide WriteRam, Decoded, IsHexDigit;
    if n > SIZE {
      WriteRamTooLong(mem, buf, at, start, 0, n);
    } else if AllHex(t) {
      WriteRamWrites(mem, buf, at, start, 0, t);
      assert WriteRam(mem, buf, at, start, 0, n).value == Patched(mem, start, Decoded(t));
    } else {
      var i :| 0 <= i < |t| && !IsHexDigit(t[i]);
      assert buf[at + i] == t[i];
      WriteRamFails(mem, buf, at, start, 0, n, i / 2);
    }
  }

  /** What `M` makes of data of the right length for a range in RAM. */
  function Stored(cpu: Cpu, t: seq<u8>, start: u32, n: u32): Handled
    requires cpu.Valid() && start + n < |cpu.mem| && |t| == Wrap(2 * n)
  {
    if n <= SIZE && AllHex(t) then Replied(cpu.(mem := Patched(cpu.mem, start, Decoded(t))), Frame([])) else Exit
  }

  /** `M` writes exactly the decoded bytes at the written address, and nothing else.  It is refused with an
      empty reply exactly if the check fails, and ends the process if length and data do not fit or a
      digit is none.  A range that wraps around ends the process too, unless RAM fills nearly all of the
      address space: for want of data, whatever lies behind RAM. */
  lemma WriteMemoryWrites(cpu: Cpu, buf: seq<u8>, d1: seq<u8>, d2: seq<u8>, t: seq<u8>, start: u32, n: u32)
    requires cpu.Valid() && Spelt(d1, d2, start, n)
    requires ['M' as int] + d1 + [',' as int] + d2 + ([':' as int] + t) <= buf && |buf| <= SIZE
    ensures var h, inRam := HandlePacket(cpu, buf, 3 + |d1| + |d2| + |t|), start + n < |cpu.mem|;
      if |t| != Wrap(2 * n) then h == Exit
      else if inRam then h == Stored(cpu, t, start, n)
      else if RangeWraps(cpu.mem, start, n) then |cpu.mem| + SIZE <= TWO_32 ==> h == Exit
      else h == Replied(cpu, Frame([]))
  {
    hide ScanHex, WriteRam, ReplyText, HandlePacket, WriteMemory, Decoded, IsHexDigit, HexNumber, Frame, OutOfRange;
    var size, at := 3 + |d1| + |d2| + |t|, 3 + |d1| + |d2|;
    Pieces(buf, 'M' as int, d1, d2, [':' as int] + t);
    assert buf[at - 1] == ':' as int && buf[at..at + |t|] == t by {
      assert buf[at - 1..at + |t|] == [':' as int] + t;
      assert buf[at - 1..at + |t|][0] == ':' as int && buf[at - 1..at + |t|][1..] == t;
    }
    ColonIsNoDigit();
    ScanTwo(buf, size, d1, d2, start, n);
    Dispatches(cpu, buf, size);
    WriteMemoryPastScans(cpu, buf, size, start, n, 1 + |d1|, at - 1, |t|);
    RangeCheck(cpu.mem, start, n);
    ReplyOfNothing(cpu);
    if |t| == Wrap(2 * n) {
      if start + n < |cpu.mem| {
        WriteRamOfData(cpu.mem, buf, at, start, n, t);
        if n <= SIZE && AllHex(t) { ReplyOfNothing(cpu.(mem := Patched(cpu.mem, start, Decoded(t)))); }
      } else if n > SIZE {
        WriteRamTooLong(cpu.mem, buf, at, start, 0, n);
      }
    }
  }

  lemma ColonIsNoDigit()
    ensures !IsHexDigit(':' as int) && !IsHexDigit(',' as int)
  {
  }

  lemma ReadRamInRange(mem: seq<u8>, start: u32, n: u32)
    requires start + n <= |mem| < TWO_32
    ensures ReadRam(mem, start, n) == mem[start..start + n]
  {
    hide ReadRam;
    var s := ReadRam(mem, start, n);
    forall k | 0 <= k < n ensures s[k] == mem[start + k] {
      assert Wrap(start + k) == start + k;
    }
  }

  /** `m` replies with the lower-case hex of the bytes in range, and ends the process if they do not fit in
      a packet.  It is refused with an empty reply exactly if the check fails; a range that wraps around
      does not fit, unless RAM fills nearly all of the address space, whatever lies behind RAM. */
  lemma ReadMemoryReads(cpu: Cpu, buf: seq<u8>, d1: seq<u8>, d2: seq<u8>, start: u32, n: u32)
    requires cpu.Valid() && Spelt(d1, d2, start, n)
    requires ['m' as int] + d1 + [',' as int] + d2 + [] <= buf
    ensures var h := HandlePacket(cpu, buf, 2 + |d1| + |d2|);
      if start + n < |cpu.mem| then
        h == if n <= 509 then Replied(cpu, Frame(HexOf(cpu.mem[start..start + n]))) else Exit
      else if RangeWraps(cpu.mem, start, n) then |cpu.mem| + SIZE <= TWO_32 ==> h == Exit
      else h == Replied(cpu, Frame([]))
  {
    hide ScanHex, Reply, ReplyText, HandlePacket, IsHexDigit, HexNumber, Frame, HexOf, OutOfRange, ReadRam;
    var size := 2 + |d1| + |d2|;
    Pieces(buf, 'm' as int, d1, d2, []);
    ColonIsNoDigit();
    ScanTwo(buf, size, d1, d2, start, n);
    Dispatches(cpu, buf, size);
    RangeCheck(cpu.mem, start, n);
    ReplyOfNothing(cpu);
    ReplyOfBytes(cpu, ReadRam(cpu.mem, start, n));
    if start + n < |cpu.mem| { ReadRamInRange(cpu.mem, start, n); }
  }

  lemma {:induction false} HexDecodes(bytes: seq<u8>)
    ensures AllHex(HexOf(bytes)) && |HexOf(bytes)| == 2 * |bytes| && Decoded(HexOf(bytes)) == bytes
  {
    hide IsHexDigit, HexToU8, Digits;
    if bytes != [] {
      var front, last := bytes[..|bytes| - 1], bytes[|bytes| - 1];
      HexDecodes(front);
      DigitsRoundTrip(last);
      var h, d := HexOf(bytes), Decoded(HexOf(front));
      assert h == HexOf(front) + Digits(last);
      forall k | 0 <= k < |bytes| ensures HexToU8(h[2 * k], h[2 * k + 1]) == Some(bytes[k]) {
        if k < |front| {
          assert d[k] == HexToU8(HexOf(front)[2 * k], HexOf(front)[2 * k + 1]).value;
          HexPairReads(HexOf(front)[2 * k], HexOf(front)[2 * k + 1]);
        }
      }
    }
  }

  lemma HexPairReads(high: u8, low: u8)
    requires IsHexDigit(high) && IsHexDigit(low)
    ensures HexToU8(high, low).Some?
  {
  }

  /** The digits that `m` sent, written back with `M` whatever happened in between, restore the range. */
  lemma ReadThenWrite(cpu: Cpu, now: Cpu, buf: seq<u8>, d1: seq<u8>, d2: seq<u8>, start: u32, n: u32)
    requires cpu.Valid() && now.Valid() && |now.mem| == |cpu.mem| && Spelt(d1, d2, start, n)
    requires start + n < |cpu.mem| && n <= 509
    requires |buf| <= SIZE
    requires ['M' as int] + d1 + [',' as int] + d2 + ([':' as int] + HexOf(cpu.mem[start..start + n])) <= buf
    ensures HandlePacket(now, buf, 3 + |d1| + |d2| + |HexOf(cpu.mem[start..start + n])|)
         == Replied(now.(mem := Patched(now.mem, start, cpu.mem[start..start + n])), Frame([]))
  {
    hide HandlePacket, Decoded, Frame, HexOf, HexNumber;
    HexDecodes(cpu.mem[start..start + n]);
    WriteMemoryWrites(now, buf, d1, d2, HexOf(cpu.mem[start..start + n]), start, n);
  }

  /** Writing with `M` and reading the same range back with `m` gives the written bytes, in lower case,
      and leaves everything outside the range as it was. */
  lemma WriteThenRead(cpu: Cpu, buf: seq<u8>, buf': seq<u8>, d1: seq<u8>, d2: seq<u8>, t: seq<u8>, start: u32, n: u32)
    requires cpu.Valid() && Spelt(d1, d2, start, n)
    requires AllHex(t) && |t| == 2 * n && start + n < |cpu.mem| && n <= 509
    requires ['M' as int] + d1 + [',' as int] + d2 + ([':' as int] + t) <= buf && |buf| <= SIZE
    requires ['m' as int] + d1 + [',' as int] + d2 + [] <= buf'
    ensures var written := cpu.(mem := Patched(cpu.mem, start, Decoded(t)));
      && HandlePacket(cpu, buf, 3 + |d1| + |d2| + |t|) == Replied(written, Frame([]))
      && HandlePacket(written, buf', 2 + |d1| + |d2|) == Replied(written, Frame(HexOf(Decoded(t))))
  {
    hide HandlePacket, Decoded, Frame, HexOf, HexNumber;
    WriteMemoryWrites(cpu, buf, d1, d2, t, start, n);
    var w := cpu.(mem := Patched(cpu.mem, start, Decoded(t)));
    ReadMemoryReads(w, buf', d1, d2, start, n);
    PatchedSlice(cpu.mem, start, Decoded(t));
  }

  lemma PatchedSlice(mem: seq<u8>, start: nat, bytes: seq<u8>)
    requires start + |bytes| <= |mem|
    ensures Patched(mem, start, bytes)[start..start + |bytes|] == bytes
  {
  }

  // ----- register commands -----

  /** `P` stores the written word, in a register or (number 32) in pc, exactly when it is below 256:
      rsp_hex_to_u32 shifts by four bits a byte.  Higher numbers end the process. */
  lemma WriteRegisterExact(cpu: Cpu, buf: seq<u8>, reg: u8, w: u32)
    requires cpu.Valid()
    requires ['P' as int] + Digits(reg) + ['=' as int] + WordDigits(w) <= buf
    ensures var h := HandlePacket(cpu, buf, 12);
      if reg > 32 then h == Exit
      else
        && h.Replied? && h.packet == Frame(Ascii("OK"))
        && h.cpu == (if reg == 32 then cpu.(ctl := cpu.ctl.(pc := h.cpu.ctl.pc))
                     else cpu.(r := cpu.r[reg := h.cpu.r[reg]]))
        && (Reg(h.cpu, reg) == w <==> w < 0x100)
  {
    hide HandlePacket, ReplyText, Digits, WordDigits, HexToU8, HexToU32, Frame;
    var cmd := ['P' as int] + Digits(reg) + ['=' as int] + WordDigits(w);
    assert buf == cmd + buf[|cmd|..];
    assert buf[1] == Digits(reg)[0] && buf[2] == Digits(reg)[1] && buf[4..12] == WordDigits(w);
    Dispatches(cpu, buf, 12);
    DigitsRoundTrip(reg);
    WordRoundTrip(w);
    var v := HexToU32(WordDigits(w)).value;
    if reg == 32 { ReplyOfOk(cpu.(ctl := cpu.ctl.(pc := v))); }
    else if reg < 32 { ReplyOfOk(cpu.(r := cpu.r[reg := v])); }
  }

  /** Register i of the g and G commands: r[0] to r[31], then pc. */
  function Reg(cpu: Cpu, i: nat): u32
    requires cpu.Valid() && i < 33
  {
    if i == 32 then cpu.ctl.pc else cpu.r[i]
  }

  /** Every `P` packet: with another length, a character that is no digit, or a number above 32 it ends the
      process; otherwise the register, or pc for 32, gets the four bytes laid over one another. */
  lemma WriteRegisterStores(cpu: Cpu, buf: seq<u8>, size: nat)
    requires cpu.Valid() && 0 < size <= |buf| && buf[0] == 'P' as int
    ensures var h := HandlePacket(cpu, buf, size);
      if size != 12 || !AllHex(buf[1..3]) || !AllHex(buf[4..12]) || NumberAt(buf, 1) > 32 then h == Exit
      else
        var reg := NumberAt(buf, 1);
        && h.Replied? && h.packet == Frame(Ascii("OK"))
        && h.cpu == (if reg == 32 then cpu.(ctl := cpu.ctl.(pc := h.cpu.ctl.pc))
                     else cpu.(r := cpu.r[reg := h.cpu.r[reg]]))
        && (forall i: nat :: Bit(Reg(h.cpu, reg), i) <==> OverlapBit(buf[4..12], i))
  {
    hide HandlePacket, ReplyText, HexToU8, HexToU32, Frame, OverlapBit, Bit, IsHexDigit, FromHexDigit;
    Dispatches(cpu, buf, size);
    if size == 12 {
      TwoDigits(buf);
      HexToU32Overlaps(buf[4..12]);
      if AllHex(buf[1..3]) && AllHex(buf[4..12]) {
        var v, reg := HexToU32(buf[4..12]).value, NumberAt(buf, 1);
        if reg == 32 { ReplyOfOk(cpu.(ctl := cpu.ctl.(pc := v))); }
        else if reg < 32 { ReplyOfOk(cpu.(r := cpu.r[reg := v])); }
      }
    }
  }

  /** The number that two digits spell. */
  function NumberAt(buf: seq<u8>, at: nat): u8
    requires at + 2 <= |buf| && AllHex(buf[at..at + 2])
  {
    assert buf[at] == buf[at..at + 2][0] && buf[at + 1] == buf[at..at + 2][1];
    0x10 * FromHexDigit(buf[at]).value + FromHexDigit(buf[at + 1]).value
  }

  lemma TwoDigits(buf: seq<u8>)
    requires |buf| >= 3
    ensures AllHex(buf[1..3]) <==> HexToU8(buf[1], buf[2]).Some?
    ensures AllHex(buf[1..3]) ==> HexToU8(buf[1], buf[2]) == Some(NumberAt(buf, 1))
  {
    hide IsHexDigit, FromHexDigit, HexToU8;
    assert buf[1..3] == [buf[1], buf[2]];
    assert buf[1..3][0] == buf[1] && buf[1..3][1] == buf[2];
    if AllHex(buf[1..3]) { HexToU8Value(buf[1], buf[2]); }
  }

  lemma {:induction false} ParseStores(buf: seq<u8>, n: nat)
    requires 1 + 8 * n <= |buf|
    ensures ParseRegisters(buf, n).Some? <==> AllHex(buf[1..1 + 8 * n])
    ensures ParseRegisters(buf, n).Some? ==>
              forall i :: 0 <= i < n ==> HexToU32(buf[1 + 8 * i..9 + 8 * i]) == Some(ParseRegisters(buf, n).value[i])
  {
    hide HexToU32, IsHexDigit;
    if n != 0 {
      ParseStores(buf, n - 1);
      var last := buf[8 * n - 7..8 * n + 1];
      HexToU32Overlaps(last);
      assert buf[1..1 + 8 * n] == buf[1..1 + 8 * (n - 1)] + last;
      assert buf[1 + 8 * (n - 1)..9 + 8 * (n - 1)] == last;
      AllHexConcat(buf[1..1 + 8 * (n - 1)], last);
    }
  }

  lemma AllHexConcat(a: seq<u8>, b: seq<u8>)
    ensures AllHex(a + b) <==> AllHex(a) && AllHex(b)
  {
    hide IsHexDigit;
    if AllHex(a + b) {
      assert forall i :: 0 <= i < |a| ==> a[i] == (a + b)[i];
      assert forall i :: 0 <= i < |b| ==> b[i] == (a + b)[|a| + i];
    }
  }

  /** Every `G` packet: with another length or a character that is no digit it ends the process; otherwise each
      register gets its four bytes laid over one another. */
  lemma WriteRegistersStores(cpu: Cpu, buf: seq<u8>, size: nat)
    requires cpu.Valid() && 0 < size <= |buf| && buf[0] == 'G' as int
    ensures var h := HandlePacket(cpu, buf, size);
      if size != 265 || !AllHex(buf[1..265]) then h == Exit
      else
        && h.Replied? && h.packet == Frame([])
        && h.cpu == cpu.(r := h.cpu.r, ctl := cpu.ctl.(pc := h.cpu.ctl.pc))
        && (forall i: nat, k: nat :: k < 33 ==>
              (Bit(Reg(h.cpu, k), i) <==> EightDigits(Eight(buf, k)) && OverlapBit(Eight(buf, k), i)))
  {
    hide HandlePacket, ReplyText, HexToU32, Frame, OverlapBit, Bit, IsHexDigit, ParseRegisters, EightDigits;
    Dispatches(cpu, buf, size);
    if size == 265 {
      ParseStores(buf, 33);
      if AllHex(buf[1..265]) {
        var v := ParseRegisters(buf, 33).value;
        ReplyOfNothing(cpu.(r := v[..32], ctl := cpu.ctl.(pc := v[32])));
        forall i: nat, k: nat | k < 33
          ensures Bit(v[k], i) <==> EightDigits(Eight(buf, k)) && OverlapBit(Eight(buf, k), i)
        {
          HexToU32Overlaps(Eight(buf, k));
        }
      }
    }
  }

  /** The digits of register k in a `G` packet. */
  function Eight(buf: seq<u8>, k: nat): (h: seq<u8>)
    requires k < 33 && |buf| >= 265
    ensures |h| == 8
  {
    buf[1 + 8 * k..9 + 8 * k]
  }

  /** One packet: `P20=00100000`, which spells 0x1000, sets pc to 0x100. */
  lemma WriteRegisterWitness(cpu: Cpu)
    requires cpu.Valid()
    ensures HandlePacket(cpu, Ascii("P20=00100000"), 12)
         == Replied(cpu.(ctl := cpu.ctl.(pc := 0x100)), Frame(Ascii("OK")))
  {
    hide HandlePacket, ReplyText, Frame, Digits, WordDigits, HexToU32, HexToU8;
    var buf := Ascii("P20=00100000");
    assert buf == [0x50, 0x32, 0x30, 0x3d, 0x30, 0x30, 0x31, 0x30, 0x30, 0x30, 0x30, 0x30];
    Dispatches(cpu, buf, 12);
    assert buf[4..12] == [0x30, 0x30, 0x31, 0x30, 0x30, 0x30, 0x30, 0x30];
    HexToU8Value(0x32, 0x30);
    HexToU8Value(0x30, 0x30);
    HexToU8Value(0x31, 0x30);
    WitnessWord(buf[4..12]);
    ReplyOfOk(cpu.(ctl := cpu.ctl.(pc := 0x100)));
  }

  lemma WitnessWord(h: seq<u8>)
    requires h == [0x30, 0x30, 0x31, 0x30, 0x30, 0x30, 0x30, 0x30]
    ensures HexToU32(h) == Some(0x100)
  {
    hide Pow2, HexToU8;
    HexToU8Value(0x30, 0x30);
    HexToU8Value(0x31, 0x30);
    AssembleBytes(h, 4, 0, 0x10, 0, 0);
    Pow2Values();
    assert Shl(0x10, 4) == 0x100;
  }

  lemma {:induction false} ImageWords(cpu: Cpu, n: nat, i: nat)
    requires cpu.Valid() && i < n <= 33
    ensures |RegisterImage(cpu, n)| == 4 * n
    ensures RegisterImage(cpu, n)[4 * i..4 * i + 4] == Memory.ToBytes(Reg(cpu, i), 4)
  {
    hide Memory.ToBytes;
    var image := RegisterImage(cpu, n);
    ImageSize(cpu, n);
    if i == n - 1 {
      ImageSize(cpu, n - 1);
    } else {
      ImageWords(cpu, n - 1, i);
      assert image[..4 * (n - 1)] == RegisterImage(cpu, n - 1);
      assert image[4 * i..4 * i + 4] == image[..4 * (n - 1)][4 * i..4 * i + 4];
    }
  }

  lemma {:induction false} ImageSize(cpu: Cpu, n: nat)
    requires cpu.Valid() && n <= 33
    ensures |RegisterImage(cpu, n)| == 4 * n
  {
    if n != 0 { ImageSize(cpu, n - 1); }
  }

  /** `g` replies with 33 words in hex, each of which reads back, least significant byte first, as its register. */
  lemma ReadRegistersReads(cpu: Cpu)
    requires cpu.Valid()
    ensures ReadRegisters(cpu) == Replied(cpu, Frame(HexOf(RegisterImage(cpu, 33))))
    ensures |RegisterImage(cpu, 33)| == 132
    ensures forall i: nat :: i < 33 ==> Memory.FromBytes(RegisterImage(cpu, 33)[4 * i..4 * i + 4]) == Reg(cpu, i)
  {
    hide Reply, RegisterImage, HexOf;
    ImageSize(cpu, 33);
    ReplyOfBytes(cpu, RegisterImage(cpu, 33));
    forall i: nat | i < 33 ensures Memory.FromBytes(RegisterImage(cpu, 33)[4 * i..4 * i + 4]) == Reg(cpu, i) {
      ImageWords(cpu, 33, i);
      WordFromBytes(Reg(cpu, i));
    }
  }

  lemma WordFromBytes(w: u32)
    ensures Memory.FromBytes(Memory.ToBytes(w, 4)) == w
  {
    hide Memory.FromBytes, Memory.ToBytes;
    Pow2Values();
    Memory.ValueRoundTrip(w, 4);
  }

  /** The digits of the first n registers, as `g` sends them and `G` expects them. */
  function WordsInHex(cpu: Cpu, n: nat): (s: seq<u8>)
    requires cpu.Valid() && n <= 33
    ensures |s| == 8 * n
  {
    if n == 0 then [] else WordsInHex(cpu, n - 1) + WordDigits(Reg(cpu, n - 1))
  }

  lemma {:induction false} HexOfConcat(a: seq<u8>, b: seq<u8>)
    ensures HexOf(a + b) == HexOf(a) + HexOf(b)
  {
    if b == [] {
      assert a + b == a;
    } else {
      assert (a + b)[..|a + b| - 1] == a + b[..|b| - 1];
      HexOfConcat(a, b[..|b| - 1]);
    }
  }

  lemma HexOfWord(w: u32)
    ensures HexOf(Memory.ToBytes(w, 4)) == WordDigits(w)
  {
    hide Digits;
    Memory.FourBytes(w);
    var s := Memory.ToBytes(w, 4);
    assert s[..3][..2] == s[..2] && s[..2][..1] == s[..1] && s[..1][..0] == [];
    assert HexOf(s[..1]) == Digits(s[0]);
    assert HexOf(s[..2]) == HexOf(s[..1]) + Digits(s[1]);
    assert HexOf(s[..3]) == HexOf(s[..2]) + Digits(s[2]);
  }

  lemma {:induction false} ImageInHex(cpu: Cpu, n: nat)
    requires cpu.Valid() && n <= 33
    ensures HexOf(RegisterImage(cpu, n)) == WordsInHex(cpu, n)
  {
    hide Memory.ToBytes, HexOf, WordDigits;
    if n == 0 {
      NothingInHex();
    } else {
      ImageInHex(cpu, n - 1);
      HexOfConcat(RegisterImage(cpu, n - 1), Memory.ToBytes(Reg(cpu, n - 1), 4));
      HexOfWord(Reg(cpu, n - 1));
    }
  }

  lemma NothingInHex()
    ensures HexOf([]) == []
  {
  }

  /** What `G` makes of such digits, register by register. */
  lemma {:induction false} ParseWords(cpu: Cpu, buf: seq<u8>, n: nat)
    requires cpu.Valid() && n <= 33 && |buf| >= 265 && buf[1..1 + 8 * n] == WordsInHex(cpu, n)
    ensures ParseRegisters(buf, n).Some?
    ensures forall i :: 0 <= i < n ==> (ParseRegisters(buf, n).value[i] == Reg(cpu, i) <==> Reg(cpu, i) < 0x100)
  {
    hide WordDigits, HexToU32, WordsInHex;
    if n != 0 {
      LastWord(cpu, buf, n);
      ParseWords(cpu, buf, n - 1);
      WordRoundTrip(Reg(cpu, n - 1));
      var front := ParseRegisters(buf, n - 1).value;
      assert ParseRegisters(buf, n) == Some(front + [HexToU32(WordDigits(Reg(cpu, n - 1))).value]);
    }
  }

  lemma LastWord(cpu: Cpu, buf: seq<u8>, n: nat)
    requires cpu.Valid() && 0 < n <= 33 && |buf| >= 265 && buf[1..1 + 8 * n] == WordsInHex(cpu, n)
    ensures buf[1..1 + 8 * (n - 1)] == WordsInHex(cpu, n - 1)
    ensures buf[8 * n - 7..8 * n + 1] == WordDigits(Reg(cpu, n - 1))
  {
    hide WordDigits;
    var all := buf[1..1 + 8 * n];
    assert all == WordsInHex(cpu, n - 1) + WordDigits(Reg(cpu, n - 1));
    assert buf[1..1 + 8 * (n - 1)] == all[..8 * (n - 1)];
    assert buf[8 * n - 7..8 * n + 1] == all[8 * (n - 1)..];
  }

  /** `G` with the digits that `g` sent restores every register exactly when all of them are below 256. */
  lemma WriteRegistersExact(cpu: Cpu, now: Cpu, buf: seq<u8>)
    requires cpu.Valid() && now.Valid()
    requires ['G' as int] + HexOf(RegisterImage(cpu, 33)) <= buf && |buf| == SIZE
    ensures var h := HandlePacket(now, buf, 265);
      && h.Replied? && h.cpu == now.(r := h.cpu.r, ctl := now.ctl.(pc := h.cpu.ctl.pc))
      && (h.cpu.r == cpu.r && h.cpu.ctl.pc == cpu.ctl.pc <==> forall i: nat :: i < 33 ==> Reg(cpu, i) < 0x100)
  {
    hide HandlePacket, ReplyText, HexOf, RegisterImage, WordsInHex, ParseRegisters;
    ImageInHex(cpu, 33);
    var cmd := ['G' as int] + WordsInHex(cpu, 33);
    assert buf == cmd + buf[|cmd|..];
    assert buf[1..265] == WordsInHex(cpu, 33) && buf[0] == 'G' as int;
    Dispatches(now, buf, 265);
    ParseWords(cpu, buf, 33);
    var v := ParseRegisters(buf, 33).value;
    ReplyOfNothing(now.(r := v[..32], ctl := now.ctl.(pc := v[32])));
    AllEqual(cpu, v);
  }

  lemma AllEqual(cpu: Cpu, v: seq<u32>)
    requires cpu.Valid() && |v| == 33
    ensures v[..32] == cpu.r && v[32] == cpu.ctl.pc <==> forall i: nat :: i < 33 ==> v[i] == Reg(cpu, i)
  {
    if forall i: nat :: i < 33 ==> v[i] == Reg(cpu, i) {
      assert v[32] == Reg(cpu, 32);
      assert forall i :: 0 <= i < 32 ==> v[..32][i] == cpu.r[i];
    }
    if v[..32] == cpu.r && v[32] == cpu.ctl.pc {
      assert forall i :: 0 <= i < 32 ==> v[i] == v[..32][i];
    }
  }

  // ----- breakpoint and run-control commands -----

  lemma DispatchesTwo(cpu: Cpu, buf: seq<u8>, size: nat)
    requires cpu.Valid() && 2 <= size <= |buf| && buf[1] == '0' as int
    ensures buf[0] == 'Z' as int ==> HandlePacket(cpu, buf, size) == InsertBreakpoint(cpu, buf, size)
    ensures buf[0] == 'z' as int ==> HandlePacket(cpu, buf, size) == RemoveBreakpoint(cpu, buf, size)
  {
    hide ReadMemory, WriteMemory, WriteRegister, ReadRegisters, WriteRegisters, InsertBreakpoint, RemoveBreakpoint,
         ReplyText, IsPrefix;
    FirstLetters(buf, size);
    TwoLetters('Z', buf, size);
    TwoLetters('z', buf, size);
  }

  lemma TwoLetters(letter: char, buf: seq<u8>, size: nat)
    requires 2 <= size <= |buf| && buf[1] == '0' as int
    ensures IsPrefix([letter, '0'], buf, size) <==> buf[0] == letter as int % 0x100
  {
    assert buf[..2] == [buf[0], buf[1]];
    assert Ascii([letter, '0']) == [letter as int % 0x100, 0x30];
  }

  /** The buffer holds `?0,<digits>,` with the command letter still to be said. */
  predicate Addressed(buf: seq<u8>, size: nat, d: seq<u8>) {
    && AllHex(d) && 4 + |d| <= size <= |buf|
    && buf[1] == '0' as int && buf[2] == ',' as int && buf[3..3 + |d|] == d && buf[3 + |d|] == ',' as int
  }

  lemma AddressRead(buf: seq<u8>, size: nat, d: seq<u8>)
    requires Addressed(buf, size, d)
    ensures BreakpointAddress(buf, size) == Some(Wrap(HexNumber(d, 0)))
  {
    hide ScanHex, HexNumber;
    ColonIsNoDigit();
    ScanReads(buf, 3, size - 3, 0, d);
  }

  lemma ReplyOk(cpu: Cpu, ok: bool)
    ensures ReplyText(cpu, if ok then "OK" else "") == Replied(cpu, Frame(if ok then Ascii("OK") else []))
  {
    hide ReplyText, Frame;
    if ok { ReplyOfOk(cpu); } else { ReplyOfNothing(cpu); }
  }

  /** `Z0` adds one copy of the written address to the breakpoint list and answers OK, unless the list is
      full.  Nothing else changes. */
  lemma InsertCommand(cpu: Cpu, buf: seq<u8>, size: nat, d: seq<u8>)
    requires cpu.Valid() && Addressed(buf, size, d) && buf[0] == 'Z' as int
    ensures var h, list := HandlePacket(cpu, buf, size), Listed(cpu.ctl);
      && h.Replied? && h.packet == Frame(if |list| < 8 then Ascii("OK") else [])
      && Listed(h.cpu.ctl) == (if |list| < 8 then list + multiset{Wrap(HexNumber(d, 0))} else list)
      && h.cpu == cpu.(ctl := cpu.ctl.(bpMask := h.cpu.ctl.bpMask, bp := h.cpu.ctl.bp))
  {
    hide HandlePacket, BreakpointAddress, ReplyText, Listed, Control.SetBreakpoint, HexNumber, Frame;
    AddressRead(buf, size, d);
    DispatchesTwo(cpu, buf, size);
    var addr := Wrap(HexNumber(d, 0));
    SetAddsOne(cpu.ctl, addr);
    var (ctl, ok) := Control.SetBreakpoint(cpu.ctl, addr);
    ReplyOk(cpu.(ctl := ctl), ok);
  }

  /** `z0` takes one copy of the written address away and answers OK, unless there is none. */
  lemma RemoveCommand(cpu: Cpu, buf: seq<u8>, size: nat, d: seq<u8>)
    requires cpu.Valid() && Addressed(buf, size, d) && buf[0] == 'z' as int
    ensures var h, list, addr := HandlePacket(cpu, buf, size), Listed(cpu.ctl), Wrap(HexNumber(d, 0));
      && h.Replied? && h.packet == Frame(if addr in list then Ascii("OK") else [])
      && Listed(h.cpu.ctl) == list - multiset{addr}
      && h.cpu == cpu.(ctl := cpu.ctl.(bpMask := h.cpu.ctl.bpMask, bp := h.cpu.ctl.bp))
  {
    hide HandlePacket, BreakpointAddress, ReplyText, Listed, Control.ClearBreakpoint, HexNumber, Frame;
    AddressRead(buf, size, d);
    DispatchesTwo(cpu, buf, size);
    var addr := Wrap(HexNumber(d, 0));
    ClearRemovesOne(cpu.ctl, addr);
    var (ctl, ok) := Control.ClearBreakpoint(cpu.ctl, addr);
    ReplyOk(cpu.(ctl := ctl), ok);
  }

  // ----- malformed commands -----

  /** A scan stops at its end or at the first byte that is no digit. */
  lemma {:induction false} ScanSpans(buf: seq<u8>, at: nat, left: nat, value: u32)
    requires at + left <= |buf|
    ensures var r := ScanHex(buf, at, left, value);
      && r.at + r.left == at + left && AllHex(buf[at..r.at]) && (r.left == 0 || !IsHexDigit(buf[r.at]))
      && (left > 0 && IsHexDigit(buf[at]) ==> r.at > at)
    decreases left
  {
    hide IsHexDigit, Or32, Shl;
    var r := ScanHex(buf, at, left, value);
    if left != 0 && IsHexDigit(buf[at]) {
      ScanSpans(buf, at + 1, left - 1, Or32(Shl(value, 4), FromHexDigit(buf[at]).value));
      assert buf[at..r.at] == [buf[at]] + buf[at + 1..r.at];
      AllHexConcat([buf[at]], buf[at + 1..r.at]);
    }
  }

  /** `m<address>,<length>`. */
  predicate ReadShape(buf: seq<u8>, size: nat, d1: seq<u8>, d2: seq<u8>)
    requires size <= |buf|
  {
    d1 != [] && AllHex(d1) && AllHex(d2) && buf[..size] == ['m' as int] + d1 + [',' as int] + d2
  }

  /** An `m` packet of any other shape ends the process. */
  lemma ReadHasShape(cpu: Cpu, buf: seq<u8>, size: nat)
    requires cpu.Valid() && 0 < size <= |buf| && buf[0] == 'm' as int && !HandlePacket(cpu, buf, size).Exit?
    ensures exists d1, d2 :: ReadShape(buf, size, d1, d2)
  {
    hide HandlePacket, ScanHex, IsHexDigit, Reply, ReplyText, ReadRam, OutOfRange, AllHex;
    Dispatches(cpu, buf, size);
    ScanSpans(buf, 1, size - 1, 0);
    var a := ScanHex(buf, 1, size - 1, 0);
    assert a.left != 0;
    ScanSpans(buf, a.at + 1, a.left - 1, 0);
    var d1, d2 := buf[1..a.at], buf[a.at + 1..size];
    assert buf[..size] == ['m' as int] + d1 + [',' as int] + d2;
    assert ReadShape(buf, size, d1, d2);
  }

  /** `M<address>,<length>:<data>`. */
  predicate WriteShape(buf: seq<u8>, size: nat, d1: seq<u8>, d2: seq<u8>, t: seq<u8>)
    requires size <= |buf|
  {
    && d1 != [] && AllHex(d1) && AllHex(d2)
    && buf[..size] == ['M' as int] + d1 + [',' as int] + d2 + [':' as int] + t
  }

  /** An `M` packet of any other shape ends the process. */
  lemma WriteHasShape(cpu: Cpu, buf: seq<u8>, size: nat)
    requires cpu.Valid() && 0 < size <= |buf| && buf[0] == 'M' as int && !HandlePacket(cpu, buf, size).Exit?
    ensures exists d1, d2, t :: WriteShape(buf, size, d1, d2, t)
  {
    hide HandlePacket, ScanHex, IsHexDigit, ReplyText, WriteRam, OutOfRange, AllHex;
    Dispatches(cpu, buf, size);
    ScanSpans(buf, 1, size - 1, 0);
    var a := ScanHex(buf, 1, size - 1, 0);
    assert a.left != 0;
    ScanSpans(buf, a.at + 1, a.left - 1, 0);
    var b := ScanHex(buf, a.at + 1, a.left - 1, 0);
    if b.left == 0 { NoRoomForColon(b.value); }
    var d1, d2, t := buf[1..a.at], buf[a.at + 1..b.at], buf[b.at + 1..size];
    assert buf[..size] == ['M' as int] + d1 + [',' as int] + d2 + [':' as int] + t;
    assert WriteShape(buf, size, d1, d2, t);
  }

  /** A breakpoint packet is answered exactly if it is `?0,<address>,...`, or ends in its address with a comma
      left behind it; otherwise it ends the process. */
  lemma BreakpointHasShape(cpu: Cpu, buf: seq<u8>, size: nat)
    requires cpu.Valid() && 2 <= size <= |buf| && buf[0] in {'Z' as int, 'z' as int} && buf[1] == '0' as int
    ensures !HandlePacket(cpu, buf, size).Exit?
        <==> (exists d :: Addressed(buf, size, d)) || (EndsInAddress(buf, size) && At(buf, size) == ',' as int)
  {
    hide HandlePacket, ScanHex, IsHexDigit, ReplyText, IsPrefix, AllHex, Control.SetBreakpoint, Control.ClearBreakpoint;
    DispatchesTwo(cpu, buf, size);
    TwoLetters('Z', buf, size);
    TwoLetters('z', buf, size);
    if d :| Addressed(buf, size, d) {
      AddressRead(buf, size, d);
      AnsweredIfAddress(cpu, buf, size);
    } else if EndsInAddress(buf, size) {
      StaleByteDecides(cpu, buf, size);
    } else if size > 2 && buf[2] == ',' as int {
      ScanSpans(buf, 3, size - 3, 0);
      var a := ScanHex(buf, 3, size - 3, 0);
      if a.left != 0 && buf[a.at] == ',' as int { assert Addressed(buf, size, buf[3..a.at]); }
    }
  }

  lemma AnsweredIfAddress(cpu: Cpu, buf: seq<u8>, size: nat)
    requires cpu.Valid() && 2 <= size <= |buf| && BreakpointAddress(buf, size).Some?
    ensures InsertBreakpoint(cpu, buf, size).Replied? && RemoveBreakpoint(cpu, buf, size).Replied?
  {
    hide BreakpointAddress, ReplyText, Control.SetBreakpoint, Control.ClearBreakpoint, Frame;
    var addr := BreakpointAddress(buf, size).value;
    var (c, ok) := Control.SetBreakpoint(cpu.ctl, addr);
    var (d, ok') := Control.ClearBreakpoint(cpu.ctl, addr);
    ReplyOk(cpu.(ctl := c), ok);
    ReplyOk(cpu.(ctl := d), ok');
  }

  // ----- stale bytes -----

  /** A scan that stays inside the packet depends only on the packet. */
  lemma {:induction false} ScanLocal(b1: seq<u8>, b2: seq<u8>, size: nat, at: nat, left: nat, value: u32)
    requires at + left == size <= |b1| == |b2| && b1[..size] == b2[..size]
    ensures ScanHex(b1, at, left, value) == ScanHex(b2, at, left, value)
    decreases left
  {
    hide Or32, Shl;
    if left != 0 {
      assert b1[at] == b1[..size][at] == b2[at];
      if IsHexDigit(b1[at]) {
        ScanLocal(b1, b2, size, at + 1, left - 1, Or32(Shl(value, 4), FromHexDigit(b1[at]).value));
      }
    }
  }

  /** The one family of packets whose handling reads past the packet: a breakpoint command that ends
      in its address. */
  predicate EndsInAddress(buf: seq<u8>, size: nat)
    requires size <= |buf|
  {
    && (IsPrefix("Z0", buf, size) || IsPrefix("z0", buf, size))
    && size > 2 && At(buf, 2) == ',' as int && ScanHex(buf, 3, size - 3, 0).left == 0
  }

  /** The bytes of the packet itself are the same in both buffers. */
  predicate SamePacket(b1: seq<u8>, b2: seq<u8>, size: nat) {
    size <= |b1| == |b2| && b1[..size] == b2[..size]
  }

  lemma SameAt(b1: seq<u8>, b2: seq<u8>, size: nat, i: nat)
    requires SamePacket(b1, b2, size) && i < size
    ensures At(b1, i) == At(b2, i) == b1[i] == b2[i]
  {
    assert b1[..size][i] == b2[..size][i];
  }

  lemma SamePrefix(prefix: string, b1: seq<u8>, b2: seq<u8>, size: nat)
    requires SamePacket(b1, b2, size)
    ensures IsPrefix(prefix, b1, size) == IsPrefix(prefix, b2, size)
  {
    if size >= |prefix| {
      assert b1[..|prefix|] == b1[..size][..|prefix|];
      assert b2[..|prefix|] == b2[..size][..|prefix|];
    }
  }

  lemma {:induction false} SameRegisters(b1: seq<u8>, b2: seq<u8>, n: nat)
    requires SamePacket(b1, b2, 265) && n <= 33
    ensures ParseRegisters(b1, n) == ParseRegisters(b2, n)
  {
    hide HexToU32;
    if n != 0 {
      SameRegisters(b1, b2, n - 1);
      assert b1[8 * n - 7..8 * n + 1] == b1[..265][8 * n - 7..8 * n + 1];
      assert b2[8 * n - 7..8 * n + 1] == b2[..265][8 * n - 7..8 * n + 1];
    }
  }

  /** A write longer than the buffer runs into a byte that is no digit. */
  lemma {:induction false} WriteRamTooLong(mem: seq<u8>, buf: seq<u8>, at: nat, start: u32, k: nat, n: nat)
    requires k <= n && n > |buf| && k <= |buf|
    ensures WriteRam(mem, buf, at, start, k, n) == None
    decreases |buf| - k
  {
    hide HexToU8;
    if k == |buf| {
      assert !IsHexDigit(At(buf, at + 2 * k));
    } else if HexToU8(At(buf, at + 2 * k), At(buf, at + 2 * k + 1)).Some? {
      var i, b := Wrap(start + k), HexToU8(At(buf, at + 2 * k), At(buf, at + 2 * k + 1)).value;
      WriteRamTooLong(if i < |mem| then mem[i := b] else mem, buf, at, start, k + 1, n);
    }
  }

  lemma {:induction false} SameWrite(mem: seq<u8>, b1: seq<u8>, b2: seq<u8>, size: nat, at: nat, start: u32,
                                     k: nat, n: nat)
    requires SamePacket(b1, b2, size) && k <= n && at + 2 * n <= size
    ensures WriteRam(mem, b1, at, start, k, n) == WriteRam(mem, b2, at, start, k, n)
    decreases n - k
  {
    hide HexToU8;
    if k < n {
      SameAt(b1, b2, size, at + 2 * k);
      SameAt(b1, b2, size, at + 2 * k + 1);
      if HexToU8(At(b1, at + 2 * k), At(b1, at + 2 * k + 1)).Some? {
        var i, b := Wrap(start + k), HexToU8(At(b1, at + 2 * k), At(b1, at + 2 * k + 1)).value;
        SameWrite(if i < |mem| then mem[i := b] else mem, b1, b2, size, at, start, k + 1, n);
      }
    }
  }

  lemma SameReadMemory(cpu: Cpu, b1: seq<u8>, b2: seq<u8>, size: nat)
    requires cpu.Valid() && SamePacket(b1, b2, size) && 1 <= size
    ensures ReadMemory(cpu, b1, size) == ReadMemory(cpu, b2, size)
  {
    hide ScanHex, Reply, ReplyText, OutOfRange, ReadRam;
    if size > 1 {
      SameAt(b1, b2, size, 1);
      ScanLocal(b1, b2, size, 1, size - 1, 0);
      var a := ScanHex(b1, 1, size - 1, 0);
      if a.left != 0 {
        SameAt(b1, b2, size, a.at);
        ScanLocal(b1, b2, size, a.at + 1, a.left - 1, 0);
      }
    } else {
      NothingToScan(b1);
      NothingToScan(b2);
    }
  }

  lemma NothingToScan(buf: seq<u8>)
    ensures ScanHex(buf, 1, 0, 0).left == 0
  {
  }

  lemma SameWriteMemory(cpu: Cpu, b1: seq<u8>, b2: seq<u8>, size: nat)
    requires cpu.Valid() && SamePacket(b1, b2, size) && 1 <= size && |b1| <= SIZE
    ensures WriteMemory(cpu, b1, size) == WriteMemory(cpu, b2, size)
  {
    hide ScanHex, ReplyText, OutOfRange, WriteRam, IsHexDigit, At;
    if size == 1 {
      NothingToScan(b1);
      NothingToScan(b2);
      return;
    }
    SameAt(b1, b2, size, 1);
    ScanLocal(b1, b2, size, 1, size - 1, 0);
    var a := ScanHex(b1, 1, size - 1, 0);
    if a.left == 0 { return; }
    SameAt(b1, b2, size, a.at);
    ScanLocal(b1, b2, size, a.at + 1, a.left - 1, 0);
    var b := ScanHex(b1, a.at + 1, a.left - 1, 0);
    if b.left == 0 {
      NoRoomForColon(b.value);
    } else {
      SameAt(b1, b2, size, b.at);
      SameData(cpu.mem, b1, b2, size, b.at + 1, a.value, b.value, b.left - 1);
    }
  }

  /** With nothing left, `size` wraps around and matches no length. */
  lemma NoRoomForColon(n: u32)
    ensures (0 - 1) % SIZE_T != Wrap(2 * n)
  {
  }

  lemma SameData(mem: seq<u8>, b1: seq<u8>, b2: seq<u8>, size: nat, at: nat, start: u32, n: u32, left: nat)
    requires SamePacket(b1, b2, size) && |b1| <= SIZE && at + left == size
    ensures left % SIZE_T == Wrap(2 * n) ==> WriteRam(mem, b1, at, start, 0, n) == WriteRam(mem, b2, at, start, 0, n)
  {
    hide WriteRam;
    if n > SIZE {
      WriteRamTooLong(mem, b1, at, start, 0, n);
      WriteRamTooLong(mem, b2, at, start, 0, n);
    } else if left == 2 * n {
      SameWrite(mem, b1, b2, size, at, start, 0, n);
    }
  }

  lemma SameBreakpointAddress(b1: seq<u8>, b2: seq<u8>, size: nat)
    requires SamePacket(b1, b2, size) && 2 <= size
    requires size > 2 && At(b1, 2) == ',' as int ==> ScanHex(b1, 3, size - 3, 0).left != 0
    ensures BreakpointAddress(b1, size) == BreakpointAddress(b2, size)
  {
    hide ScanHex;
    if size > 2 {
      SameAt(b1, b2, size, 2);
      ScanLocal(b1, b2, size, 3, size - 3, 0);
      if At(b1, 2) == ',' as int { SameAt(b1, b2, size, ScanHex(b1, 3, size - 3, 0).at); }
    }
  }

  /** Handling a packet depends on the packet alone, and not on what earlier packets left in the buffer
      behind it, unless it is a breakpoint command that ends in its address. */
  lemma StaleBytesIgnored(cpu: Cpu, b1: seq<u8>, b2: seq<u8>, size: nat)
    requires cpu.Valid() && SamePacket(b1, b2, size) && |b1| <= SIZE && !EndsInAddress(b1, size)
    ensures HandlePacket(cpu, b1, size) == HandlePacket(cpu, b2, size)
  {
    hide IsPrefix, ReadMemory, WriteMemory, WriteRegisters, WriteRegister, ReadRegisters, BreakpointAddress, ReplyText,
         ScanHex;
    SamePrefixes(b1, b2, size);
    PrefixFits("m", b1, size);
    PrefixFits("M", b1, size);
    PrefixFits("Z0", b1, size);
    PrefixFits("z0", b1, size);
    if size >= 1 {
      SameReadMemory(cpu, b1, b2, size);
      SameWriteMemory(cpu, b1, b2, size);
    }
    SameRegisterWrites(cpu, b1, b2, size);
    if size >= 2 && (IsPrefix("Z0", b1, size) || IsPrefix("z0", b1, size)) { SameBreakpointAddress(b1, b2, size); }
  }

  lemma SameRegisterWrites(cpu: Cpu, b1: seq<u8>, b2: seq<u8>, size: nat)
    requires cpu.Valid() && SamePacket(b1, b2, size)
    ensures WriteRegisters(cpu, b1, size) == WriteRegisters(cpu, b2, size)
    ensures WriteRegister(cpu, b1, size) == WriteRegister(cpu, b2, size)
  {
    hide ParseRegisters, HexToU32, HexToU8, ReplyText;
    if size == 265 { SameRegisters(b1, b2, 33); }
    if size == 12 {
      SameAt(b1, b2, 12, 1);
      SameAt(b1, b2, 12, 2);
      assert b1[4..12] == b1[..12][4..12] && b2[4..12] == b2[..12][4..12];
    }
  }

  lemma SamePrefixes(b1: seq<u8>, b2: seq<u8>, size: nat)
    requires SamePacket(b1, b2, size)
    ensures forall prefix :: IsPrefix(prefix, b1, size) == IsPrefix(prefix, b2, size)
  {
    forall prefix ensures IsPrefix(prefix, b1, size) == IsPrefix(prefix, b2, size) {
      SamePrefix(prefix, b1, b2, size);
    }
  }

  /** For that family the byte behind the packet decides: a comma there makes the command succeed, anything
      else ends the process. */
  lemma StaleByteDecides(cpu: Cpu, buf: seq<u8>, size: nat)
    requires cpu.Valid() && size <= |buf| && EndsInAddress(buf, size)
    ensures HandlePacket(cpu, buf, size).Replied? <==> At(buf, size) == ',' as int
    ensures HandlePacket(cpu, buf, size).Exit? <==> At(buf, size) != ',' as int
  {
    hide ScanHex, IsPrefix, HandlePacket, ReplyText, Control.SetBreakpoint, Control.ClearBreakpoint;
    PrefixSize(buf, size);
    PrefixBytes(buf, size);
    DispatchesTwo(cpu, buf, size);
    if At(buf, size) == ',' as int {
      var addr := BreakpointAddress(buf, size).value;
      var (c, ok) := Control.SetBreakpoint(cpu.ctl, addr);
      var (d, ok') := Control.ClearBreakpoint(cpu.ctl, addr);
      ReplyOk(cpu.(ctl := c), ok);
      ReplyOk(cpu.(ctl := d), ok');
    }
  }

  lemma PrefixBytes(buf: seq<u8>, size: nat)
    requires 2 <= size <= |buf| && (IsPrefix("Z0", buf, size) || IsPrefix("z0", buf, size))
    ensures buf[0] in {'Z' as int, 'z' as int} && buf[1] == '0' as int
  {
    assert Ascii("Z0") == [0x5a, 0x30] && Ascii("z0") == [0x7a, 0x30];
    assert buf[..2][0] == buf[0] && buf[..2][1] == buf[1];
  }

  lemma PrefixSize(buf: seq<u8>, size: nat)
    requires size <= |buf| && EndsInAddress(buf, size)
    ensures size >= 3
  {
  }
}
