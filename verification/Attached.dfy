/**
 The emulator with the debugger attached: received bytes and the machine's own
 events in any order.  Whatever arrives, the machine goes through one of the runs
 that CoreRuns is about.
 */
module Attached {
  import opened Words
  import opened Hex
  import opened Packet
  import opened Commands
  import opened CommandLaws
  import opened Receiver
  import Breakpoints
  import Control
  import Core
  import CoreRuns
  import Memory

  type Event = Core.Event

  // ----- a packet as events -----

  /** What a packet that leaves the machine as t does to it, as events. */
  function PacketEvents(buf: seq<u8>, size: nat, t: Cpu): seq<Event>
    requires size <= |buf|
  {
    if size == 0 then []
    else if buf[0] in {'G' as int, 'P' as int, 'M' as int} then [Core.Write(Core.ImageOf(t))]
    else if buf[0] == 'c' as int then [Core.Continue]
    else if buf[0] == 'D' as int then [Core.ClearAllBps, Core.Continue]
    else if buf[0] == 'k' as int then [Core.Reset]
    else if size < 2 then []
    else if IsPrefix("Z0", buf, size) then
      match BreakpointAddress(buf, size) { case Some(addr) => [Core.SetBp(addr)] case None => [] }
    else if IsPrefix("z0", buf, size) then
      match BreakpointAddress(buf, size) { case Some(addr) => [Core.ClearBp(addr)] case None => [] }
    else []
  }

  /** Register and memory writes change nothing but registers, pc and RAM. */
  lemma OnlyImage(cpu: Cpu, buf: seq<u8>, size: nat)
    requires cpu.Valid() && 0 < size <= |buf| && buf[0] in {'G' as int, 'P' as int, 'M' as int}
    requires !HandlePacket(cpu, buf, size).Exit?
    ensures var t := HandlePacket(cpu, buf, size).cpu; t == Core.Overwrite(cpu, Core.ImageOf(t))
  {
    hide HandlePacket, ReplyText, HexToU8, HexToU32, ParseRegisters, ScanHex, WriteRam, OutOfRange, IsHexDigit,
         IsPrefix;
    Dispatches(cpu, buf, size);
  }

  lemma RunOne(cpu: Cpu, e: Event)
    requires cpu.Valid()
    ensures Core.Run(cpu, [e]) == Core.Handle(cpu, e)
  {
    hide Core.Handle;
    assert [e][..0] == [];
    assert Core.Run(cpu, []) == cpu;
  }

  /** Handling a packet is a run of events. */
  lemma PacketIsRun(cpu: Cpu, buf: seq<u8>, size: nat)
    requires cpu.Valid() && size <= |buf| && !HandlePacket(cpu, buf, size).Exit?
    ensures var t := HandlePacket(cpu, buf, size).cpu; t == Core.Run(cpu, PacketEvents(buf, size, t))
  {
    hide Core.Run, ReplyText, BreakpointAddress, IsPrefix, Core.Cycle, Control.SetBreakpoint, Control.ClearBreakpoint,
         Control.ClearAllBreakpoints, Core.ResetState, WriteRegisters, WriteRegister, WriteMemory, ReadMemory;
    RunNone(cpu);
    if size == 0 {
      NoPrefix(buf);
    } else {
      FirstLetters(buf, size);
      PrefixFits("Z0", buf, size);
      PrefixFits("z0", buf, size);
      var es := PacketEvents(buf, size, HandlePacket(cpu, buf, size).cpu);
      if buf[0] in {'G' as int, 'P' as int, 'M' as int} { OnlyImage(cpu, buf, size); }
      if |es| == 1 { RunOne(cpu, es[0]); }
      if buf[0] == 'D' as int { CoreRuns.RunTwo(cpu, Core.ClearAllBps, Core.Continue); }
      if buf[0] == 'm' as int { ReadKeeps(cpu, buf, size); }
    }
  }

  lemma RunNone(cpu: Cpu)
    requires cpu.Valid()
    ensures Core.Run(cpu, []) == cpu
  {
  }

  lemma ReadKeeps(cpu: Cpu, buf: seq<u8>, size: nat)
    requires cpu.Valid() && 1 <= size <= |buf|
    ensures !ReadMemory(cpu, buf, size).Exit? ==> ReadMemory(cpu, buf, size).cpu == cpu
  {
    hide ScanHex, OutOfRange, IsHexDigit, ReadRam, Emit;
  }

  // ----- whole sessions -----

  /** What can happen next: a byte arrives, or the machine does something of its own. */
  datatype Act = Received(input: Input) | Own(event: Event)

  /** None stands for the end of the process. */
  function Step(st: Stub, a: Act): (r: Option<Stub>)
    requires st.Valid()
    ensures r.Some? ==> r.value.Valid()
  {
    match a
    case Received(input) => HandleByte(st, input.byte, input.junk)
    case Own(event) => Some(st.(cpu := Core.Handle(st.cpu, event)))
  }

  function Drive(st: Stub, acts: seq<Act>): (r: Option<Stub>)
    requires st.Valid()
    ensures r.Some? ==> r.value.Valid()
    decreases |acts|
  {
    if acts == [] then Some(st)
    else match Step(st, acts[0])
      case None => None
      case Some(t) => Drive(t, acts[1..])
  }

  /** What the receiver takes from the stream: a break (0x03) or a packet body. */
  datatype Command = Break | Dispatch(body: seq<u8>)

  /** Of the bytes, only 0x03 between packets and the last digit of a right checksum are acted on. */
  function ActCommands(st: Stub, a: Act): seq<Command>
    requires st.Valid()
  {
    if a.Own? then []
    else if st.state == WaitStart && a.input.byte == 3 then [Break]
    else if st.state == Checksum2 && FromHexDigit(a.input.byte).Some?
            && st.sum1 == Or(st.sum2, FromHexDigit(a.input.byte).value) % 0x100
    then [Dispatch(st.buf[..st.iptr])]
    else []
  }

  function DispatchEvents(st: Stub): seq<Event>
    requires st.Valid()
  {
    var h := HandlePacket(st.cpu, st.buf, st.iptr);
    if h.Exit? then [] else PacketEvents(st.buf, st.iptr, h.cpu)
  }

  /** The events of an act: the machine's own, or those of the command that a byte completes. */
  function ActEvents(st: Stub, a: Act): seq<Event>
    requires st.Valid()
  {
    match a
    case Own(event) => [event]
    case Received(_) =>
      var c := ActCommands(st, a);
      if c == [] then [] else if c[0].Break? then [Core.Interrupt] else DispatchEvents(st)
  }

  function Events(st: Stub, acts: seq<Act>): seq<Event>
    requires st.Valid() && Drive(st, acts).Some?
    decreases |acts|
  {
    if acts == [] then [] else ActEvents(st, acts[0]) + Events(Step(st, acts[0]).value, acts[1..])
  }

  lemma StepIsRun(st: Stub, a: Act)
    requires st.Valid() && Step(st, a).Some?
    ensures Step(st, a).value.cpu == Core.Run(st.cpu, ActEvents(st, a))
  {
    hide HandlePacket, PacketEvents, ReplyText, Core.Run, Core.Cycle, Or, FromHexDigit;
    RunNone(st.cpu);
    match a
    case Own(event) => RunOne(st.cpu, event);
    case Received(input) =>
      RunOne(st.cpu, Core.Interrupt);
      if st.state == Checksum2 && !HandlePacket(st.cpu, st.buf, st.iptr).Exit? {
        PacketIsRun(st.cpu, st.buf, st.iptr);
      }
  }

  /** Over any interleaving of received bytes and own events, the machine changes only by its own events, by
      packets whose checksum is right, and by 0x03 between packets: it ends as the run of these ends. */
  lemma {:induction false} DriveIsRun(st: Stub, acts: seq<Act>)
    requires st.Valid() && Drive(st, acts).Some?
    ensures Drive(st, acts).value.cpu == Core.Run(st.cpu, Events(st, acts))
    decreases |acts|
  {
    hide Step, ActEvents, Core.Run;
    if acts == [] {
      RunNone(st.cpu);
    } else {
      var t := Step(st, acts[0]).value;
      StepIsRun(st, acts[0]);
      DriveIsRun(t, acts[1..]);
      Core.RunConcat(st.cpu, ActEvents(st, acts[0]), Events(t, acts[1..]));
    }
  }

  // ----- the commands are those of an independent parser -----

  /** All commands that a session acts on. */
  function Acted(st: Stub, acts: seq<Act>): seq<Command>
    requires st.Valid() && Drive(st, acts).Some?
    decreases |acts|
  {
    if acts == [] then [] else ActCommands(st, acts[0]) + Acted(Step(st, acts[0]).value, acts[1..])
  }

  /** The bytes among the acts. */
  function BytesOf(acts: seq<Act>): seq<Input> {
    if acts == [] then []
    else (match acts[0] case Received(input) => [input] case Own(_) => []) + BytesOf(acts[1..])
  }

  /** `c` and `k` are the packets without a reply, so that no `+` comes back. */
  predicate Silences(body: seq<u8>) {
    body != [] && body[0] in {'c' as int, 'k' as int}
  }

  // The parser: between packets, in a body, after `#` and its first digit, and before an acknowledgement.

  function CommandsIn(s: seq<Input>): seq<Command>
    decreases |s|, 0
  {
    if s == [] then []
    else if s[0].byte == '$' as int then InPacket([], s[1..])
    else if s[0].byte == 3 then [Break] + CommandsIn(s[1..])
    else CommandsIn(s[1..])
  }

  function InPacket(body: seq<u8>, s: seq<Input>): seq<Command>
    decreases |s|, 2
  {
    var n := FindHash(s);
    if n == |s| then [] else AfterBody(body + Octets(s[..n]), s[n + 1..])
  }

  function AfterBody(body: seq<u8>, s: seq<Input>): seq<Command>
    decreases |s|, 1
  {
    if s == [] then [] else
      match FromHexDigit(s[0].byte) case None => [] case Some(high) => AfterFirst(body, high, s[1..])
  }

  function AfterFirst(body: seq<u8>, high: u8, s: seq<Input>): seq<Command>
    decreases |s|, 1
  {
    if s == [] then [] else
      match FromHexDigit(s[0].byte)
      case None => []
      case Some(low) =>
        if 0x10 * high + low == Checksum(body) then
          [Dispatch(body)] + if Silences(body) then CommandsIn(s[1..]) else AfterReply(s[1..])
        else if s[0].junk then AfterReply(s[1..]) else CommandsIn(s[1..])
  }

  /** The byte after a reply is the acknowledgement. */
  function AfterReply(s: seq<Input>): seq<Command>
    decreases |s|, 1
  {
    if s == [] then [] else CommandsIn(s[1..])
  }

  /** The parser, from where the receiver is. */
  function Rest(st: Stub, s: seq<Input>): seq<Command>
    requires st.Valid()
  {
    match st.state
    case WaitStart => CommandsIn(s)
    case PacketData => InPacket(st.buf[..st.iptr], s)
    case Checksum1 => AfterBody(st.buf[..st.iptr], s)
    case Checksum2 => AfterFirst(st.buf[..st.iptr], st.sum2 / 0x10, s)
    case WaitAck => AfterReply(s)
  }

  /** Inside a packet, sum1 is the checksum of what the buffer holds of it, and sum2 one digit. */
  predicate Summed(st: Stub) {
    && st.Valid()
    && (st.state in {PacketData, Checksum1, Checksum2} ==> st.sum1 == Checksum(st.buf[..st.iptr]))
    && (st.state == Checksum2 ==> st.sum2 % 0x10 == 0)
  }

  lemma SummedByte(st: Stub, c: u8)
    requires Summed(st) && st.state == PacketData && st.iptr < SIZE
    ensures (st.sum1 + c) % 0x100 == Checksum(st.buf[st.iptr := c][..st.iptr + 1])
  {
    hide Sum;
    var body := st.buf[..st.iptr];
    assert st.buf[st.iptr := c][..st.iptr + 1] == body + [c];
    SumConcat(body, [c]);
    SumOne(c);
  }

  lemma SumOne(c: u8)
    ensures Sum([c]) == c
  {
    assert [c][..0] == [];
  }

  lemma SummedNothing(st: Stub)
    requires st.Valid() && st.iptr == 0 && st.sum1 == 0
    ensures st.sum1 == Checksum(st.buf[..st.iptr])
  {
    SumOfNothing();
  }

  lemma StepStaysSummed(st: Stub, a: Act)
    requires Summed(st) && Step(st, a).Some?
    ensures Summed(Step(st, a).value)
  {
    hide HandlePacket, ReplyText, Checksum, Core.Handle, FromHexDigit, Or;
    if a.Received? {
      if st.state == WaitStart { SummedNothing(st.(iptr := 0, sum1 := 0, sum2 := 0)); }
      if st.state == PacketData && st.iptr < SIZE { SummedByte(st, a.input.byte); }
    }
  }

  lemma InPacketByte(body: seq<u8>, c: Input, s: seq<Input>)
    requires c.byte != HASH
    ensures InPacket(body, [c] + s) == InPacket(body + [c.byte], s)
  {
    hide AfterBody;
    var n := FindHash(s);
    assert ([c] + s)[1..] == s;
    assert FindHash([c] + s) == n + 1;
    if n < |s| {
      assert ([c] + s)[..n + 1] == [c] + s[..n] && ([c] + s)[n + 2..] == s[n + 1..];
      assert body + Octets([c] + s[..n]) == body + [c.byte] + Octets(s[..n]);
    }
  }

  lemma InPacketEnds(body: seq<u8>, c: Input, s: seq<Input>)
    requires c.byte == HASH
    ensures InPacket(body, [c] + s) == AfterBody(body, s)
  {
    hide AfterBody;
    assert ([c] + s)[1..] == s;
    assert FindHash([c] + s) == 0;
    assert body + Octets(([c] + s)[..0]) == body;
  }

  /** Exactly the packets `c` and `k` are handled without a reply. */
  lemma SilentPackets(cpu: Cpu, buf: seq<u8>, size: nat)
    requires cpu.Valid() && size <= |buf|
    ensures var h := HandlePacket(cpu, buf, size); !h.Exit? ==> (h.Silent? <==> Silences(buf[..size]))
  {
    hide IsPrefix, Core.ResetState, ReplyText, BreakpointAddress, ParseRegisters, HexToU8, HexToU32, ScanHex, WriteRam,
         OutOfRange, IsHexDigit, ReadRam, Emit, Control.SetBreakpoint, Control.ClearBreakpoint;
    if size > 0 { FirstLetters(buf, size); } else { NoPrefix(buf); }
    RepliesAreReplies();
  }

  lemma RepliesAreReplies()
    ensures forall cpu, text :: !ReplyText(cpu, text).Silent?
  {
  }

  /** The parser takes the next byte as the receiver does. */
  lemma ByteParses(st: Stub, c: Input, s: seq<Input>)
    requires Summed(st) && Step(st, Received(c)).Some?
    ensures Rest(st, [c] + s) == ActCommands(st, Received(c)) + Rest(Step(st, Received(c)).value, s)
  {
    hide HandlePacket, ReplyText, Checksum, FromHexDigit, Or, InPacket, CommandsIn, Silences;
    assert ([c] + s)[0] == c && ([c] + s)[1..] == s;
    match st.state
    case WaitStart => StartParses(st, c, s);
    case PacketData =>
      if c.byte == HASH {
        InPacketEnds(st.buf[..st.iptr], c, s);
      } else {
        InPacketByte(st.buf[..st.iptr], c, s);
        assert st.buf[st.iptr := c.byte][..st.iptr + 1] == st.buf[..st.iptr] + [c.byte];
      }
    case Checksum1 =>
    case Checksum2 => EndParses(st, c, s);
    case WaitAck =>
  }

  lemma StartParses(st: Stub, c: Input, s: seq<Input>)
    requires st.Valid() && st.state == WaitStart && Step(st, Received(c)).Some?
    ensures CommandsIn([c] + s) == ActCommands(st, Received(c)) + Rest(Step(st, Received(c)).value, s)
  {
    hide ReplyText, InPacket;
    assert ([c] + s)[0] == c && ([c] + s)[1..] == s;
    assert st.buf[..0] == [];
  }

  lemma EndParses(st: Stub, c: Input, s: seq<Input>)
    requires Summed(st) && st.state == Checksum2 && Step(st, Received(c)).Some?
    ensures AfterFirst(st.buf[..st.iptr], st.sum2 / 0x10, [c] + s)
         == ActCommands(st, Received(c)) + Rest(Step(st, Received(c)).value, s)
  {
    hide HandlePacket, Checksum, FromHexDigit, Or, CommandsIn, Silences, AfterReply;
    assert ([c] + s)[0] == c && ([c] + s)[1..] == s;
    var low := FromHexDigit(c.byte).value;
    NibblesJoin(st.sum2 / 0x10, low);
    SilentPackets(st.cpu, st.buf, st.iptr);
  }

  /** Over any interleaving, what the session acts on is what the parser finds in the received bytes alone. */
  lemma {:induction false} ActedIsParsed(st: Stub, acts: seq<Act>)
    requires Summed(st) && Drive(st, acts).Some?
    ensures Acted(st, acts) == Rest(st, BytesOf(acts))
    decreases |acts|
  {
    hide Step, ActCommands, Rest, Checksum;
    if acts == [] {
      NothingLeft(st);
    } else {
      var t := Step(st, acts[0]).value;
      StepStaysSummed(st, acts[0]);
      ActedIsParsed(t, acts[1..]);
      match acts[0]
      case Received(c) => ByteParses(st, c, BytesOf(acts[1..]));
      case Own(e) => OwnParses(st, e, BytesOf(acts[1..]));
    }
  }

  lemma NothingLeft(st: Stub)
    requires st.Valid()
    ensures Rest(st, []) == []
  {
  }

  lemma OwnParses(st: Stub, e: Event, s: seq<Input>)
    requires st.Valid()
    ensures ActCommands(st, Own(e)) == [] && Rest(Step(st, Own(e)).value, s) == Rest(st, s)
    ensures [] + s == s
  {
    hide Core.Handle;
  }

  // ----- the receiver alone -----

  function Bytes(s: seq<Input>): (acts: seq<Act>)
    ensures |acts| == |s|
  {
    seq(|s|, i requires 0 <= i < |s| => Received(s[i]))
  }

  /** With nothing but bytes this is the receiver. */
  lemma {:induction false} DriveIsFeed(st: Stub, s: seq<Input>)
    requires st.Valid()
    ensures Drive(st, Bytes(s)) == Feed(st, s)
    decreases |s|
  {
    hide HandleByte;
    if s != [] {
      assert Bytes(s)[0] == Received(s[0]) && Bytes(s)[1..] == Bytes(s[1..]);
      match HandleByte(st, s[0].byte, s[0].junk)
      case None =>
      case Some(t) => DriveIsFeed(t, s[1..]);
    }
  }

  /** The status is this one from beginning to end. */
  predicate StatusThroughout(st: Stub, acts: seq<Act>, status: Memory.Status)
    requires st.Valid() && Drive(st, acts).Some?
    decreases |acts|
  {
    && st.cpu.ctl.status == status
    && (acts != [] ==> StatusThroughout(Step(st, acts[0]).value, acts[1..], status))
  }

  /** An event that revives comes alone. */
  lemma RevivalIsSingle(st: Stub, a: Act, e: Event)
    requires st.Valid() && e in ActEvents(st, a) && CoreRuns.Revives(e)
    ensures ActEvents(st, a) == [e]
  {
    hide HandlePacket, IsPrefix, BreakpointAddress, Or, FromHexDigit;
  }

  /** With the debugger attached, HALTED, EBREAK and the INVALID statuses are kept through a whole session
      exactly when it holds no 0x03 between packets, no packet `k`, and no such event of the machine's own. */
  lemma {:induction false} DeadWhileAttached(st: Stub, acts: seq<Act>)
    requires st.Valid() && Drive(st, acts).Some? && CoreRuns.Dead(st.cpu.ctl)
    ensures StatusThroughout(st, acts, st.cpu.ctl.status)
        <==> forall e :: e in Events(st, acts) ==> !CoreRuns.Revives(e)
    decreases |acts|
  {
    hide Step, ActEvents, Core.Run, Core.Handle;
    if acts != [] {
      var t, es := Step(st, acts[0]).value, ActEvents(st, acts[0]);
      StepIsRun(st, acts[0]);
      if forall e :: e in es ==> !CoreRuns.Revives(e) {
        CoreRuns.DeadStays(st.cpu, es);
        DeadWhileAttached(t, acts[1..]);
      } else {
        var e :| e in es && CoreRuns.Revives(e);
        RevivalIsSingle(st, acts[0], e);
        RunOne(st.cpu, e);
        RevivedIsPaused(st.cpu, e);
        assert e in Events(st, acts);
      }
    }
  }

  lemma RevivedIsPaused(cpu: Cpu, e: Event)
    requires cpu.Valid() && CoreRuns.Revives(e)
    ensures Core.Handle(cpu, e).ctl.status == Memory.Paused
  {
  }

  /** And no instruction is ever fetched from an address in the debugger's list. */
  lemma NeverFetchesWhileAttached(st: Stub, acts: seq<Act>, host: Memory.Host)
    requires st.Valid() && Drive(st, acts).Some?
    ensures var u := Drive(st, acts).value.cpu;
      var list := CoreRuns.ListAfterAll(Breakpoints.Listed(st.cpu.ctl), Events(st, acts));
      Core.Fetched(u, host).Some? ==> Control.Prelude(u.ctl).pc !in list
  {
    hide Drive, Events, Core.Run, Core.Fetched, Control.Prelude, CoreRuns.ListAfterAll, Breakpoints.Listed;
    DriveIsRun(st, acts);
    CoreRuns.NeverFetchesListed(st.cpu, Events(st, acts), host);
  }

  // ----- the bytes on the wire, written out -----

  /** `$body#hh`; the receiver may hold anything in its unset variable when the last digit comes. */
  function Wire(body: seq<u8>, h1: u8, h2: u8, junk: bool): seq<Input> {
    Inputs(['$' as int] + body) + [Input('#' as int, false), Input(h1, false), Input(h2, junk)]
  }

  /** What is left after a packet: sent, the machine, and whether an acknowledgement is awaited. */
  predicate Leaves(st: Stub, r: Option<Stub>, cpu: Cpu, sent: seq<seq<u8>>, ack: bool) {
    && r.Some? && r.value.cpu == cpu && r.value.sent == st.sent + sent
    && r.value.state == if ack then WaitAck else WaitStart
  }

  /** A body whose checksum is wrong is answered with `-` and nothing else, and the machine is left alone; one
      whose checksum is right is answered with `+`, handled, and answered with the handler's reply. */
  lemma PacketOnWire(st: Stub, body: seq<u8>, h1: u8, h2: u8, junk: bool)
    requires st.Valid() && st.state == WaitStart && |body| <= 1024 && '#' as int !in body
    requires IsHexDigit(h1) && IsHexDigit(h2)
    ensures var r, hh := Feed(st, Wire(body, h1, h2, junk)), 0x10 * FromHexDigit(h1).value + FromHexDigit(h2).value;
      if hh != Sum(body) % 0x100 then Leaves(st, r, st.cpu, [['-' as int]], junk)
      else match HandlePacket(st.cpu, Overlay(st.buf, body), |body|)
        case Exit => r == None
        case Silent(cpu) => Leaves(st, r, cpu, [['+' as int]], false)
        case Replied(cpu, packet) => Leaves(st, r, cpu, [['+' as int], packet], true)
  {
    hide HandlePacket, Sum, Feed, FromHexDigit, IsHexDigit;
    var start, mid := Inputs(['$' as int]), Inputs(body);
    var end := [Input('#' as int, false), Input(h1, false), Input(h2, junk)];
    assert Wire(body, h1, h2, junk) == start + (mid + end);
    FeedConcat(st, start, mid + end);
    FeedDollar(st);
    var t := st.(iptr := 0, sum1 := 0, sum2 := 0, state := PacketData);
    FeedConcat(t, mid, end);
    FeedBody(t, mid);
    assert Octets(mid) == body;
    FreshBody(t, body);
    FeedDigits(WithBody(t, body), h1, h2, junk);
  }

  lemma FeedDollar(st: Stub)
    requires st.Valid() && st.state == WaitStart
    ensures Feed(st, Inputs(['$' as int])) == Some(st.(iptr := 0, sum1 := 0, sum2 := 0, state := PacketData))
  {
    hide HandleByte;
    var s := Inputs(['$' as int]);
    assert s == [Input('$' as int, false)] && s[1..] == [];
    DollarByte(st, false);
    assert Feed(st.(iptr := 0, sum1 := 0, sum2 := 0, state := PacketData), []).Some?;
  }

  /** Byte 3 between packets pauses the machine and reports the interrupt. */
  lemma BreakOnWire(st: Stub, junk: bool)
    requires st.Valid() && st.state == WaitStart
    ensures var r := Feed(st, [Input(3, junk)]);
      && Leaves(st, r, st.cpu.(ctl := st.cpu.ctl.(status := Memory.Paused)), [Ascii("$S02#b5")], false)
      && r.value.buf == st.buf
  {
    hide ReplyText, Frame;
    assert [Input(3, junk)][1..] == [];
    assert Ascii("S02") == [0x53, 0x30, 0x32];
    ReplyOfPlain(Receiver.Paused(st.cpu), "S02");
    BreakFrame();
  }

  lemma BreakFrame()
    ensures Frame(Ascii("S02")) == Ascii("$S02#b5")
  {
    hide Sum;
    assert Ascii("S02") == [0x53, 0x30, 0x32];
    SumOfThree(0x53, 0x30, 0x32);
    assert Digits(0xb5) == [0x62, 0x35];
  }

  lemma SumOfThree(a: u8, b: u8, c: u8)
    ensures Sum([a, b, c]) == a as int + b as int + c as int
  {
    assert [a, b, c][..2] == [a, b] && [a, b][..1] == [a] && [a][..0] == [];
    assert Sum([a]) == a as int;
    assert Sum([a, b]) == a as int + b as int;
  }

  /** Every other byte between packets but `$` is skipped. */
  lemma NoiseOnWire(st: Stub, c: u8, junk: bool)
    requires st.Valid() && st.state == WaitStart && c != 3 && c != '$' as int
    ensures var r := Feed(st, [Input(c, junk)]); Leaves(st, r, st.cpu, [], false) && r.value.buf == st.buf
  {
    assert [Input(c, junk)][1..] == [];
  }

  /** After a reply `+` is taken, and any other byte ends the process. */
  lemma AckOnWire(st: Stub, c: u8, junk: bool)
    requires st.Valid() && st.state == WaitAck
    ensures Feed(st, [Input(c, junk)]) == if c == '+' as int then Some(st.(state := WaitStart)) else None
  {
    assert [Input(c, junk)][1..] == [];
  }

  /** A body of more than 1024 bytes ends the process, and so does a checksum digit that is none. */
  lemma BadPacketOnWire(st: Stub, body: seq<u8>, h: u8, rest: seq<Input>)
    requires st.Valid() && st.state == WaitStart && '#' as int !in body
    ensures |body| > 1024 ==> Feed(st, Inputs(['$' as int] + body)) == None
    ensures |body| <= 1024 && !IsHexDigit(h) ==> Feed(st, Inputs(['$' as int] + body + ['#' as int, h]) + rest) == None
  {
    hide HandlePacket, Sum, Feed, FromHexDigit, IsHexDigit;
    var start, mid, end := Inputs(['$' as int]), Inputs(body), Inputs(['#' as int, h]) + rest;
    assert Inputs(['$' as int] + body) == start + mid;
    assert Inputs(['$' as int] + body + ['#' as int, h]) + rest == start + (mid + end);
    FeedConcat(st, start, mid);
    FeedConcat(st, start, mid + end);
    FeedDollar(st);
    var t := st.(iptr := 0, sum1 := 0, sum2 := 0, state := PacketData);
    FeedConcat(t, mid, end);
    FeedBody(t, mid);
    if |body| <= 1024 && !IsHexDigit(h) {
      FreshBody(t, Octets(mid));
      FeedBadDigit(WithBody(t, Octets(mid)), h, rest);
    }
  }

  lemma FeedBadDigit(st: Stub, h: u8, rest: seq<Input>)
    requires st.Valid() && st.state == PacketData && !IsHexDigit(h)
    ensures Feed(st, Inputs(['#' as int, h]) + rest) == None
  {
    hide FromHexDigit, IsHexDigit;
    var s := Inputs(['#' as int, h]) + rest;
    assert s[0] == Input('#' as int, false) && s[1..][0] == Input(h, false);
    HashByte(st, false);
    FeedOne(st, s);
    FeedOne(st.(state := Checksum1), s[1..]);
  }

  // ----- stale bytes in whole streams -----

  /** `Z0` or `z0` with an address, with and without the comma after it. */
  function Short(letter: u8, d: seq<u8>): seq<u8> {
    [letter, '0' as int, ',' as int] + d
  }

  function Long(letter: u8, d: seq<u8>): seq<u8> {
    Short(letter, d) + [',' as int]
  }

  /** A letter and an address that a packet has room for. */
  predicate Breakpointed(letter: u8, d: seq<u8>) {
    letter in {'Z' as int, 'z' as int} && AllHex(d) && |d| + 4 <= SIZE
  }

  lemma NoHashInAddress(letter: u8, d: seq<u8>)
    requires Breakpointed(letter, d)
    ensures HASH !in Short(letter, d) && HASH !in Long(letter, d)
  {
  }

  lemma ShortEndsInAddress(buf: seq<u8>, letter: u8, d: seq<u8>)
    requires Breakpointed(letter, d) && |buf| == SIZE
    ensures EndsInAddress(Overlay(buf, Short(letter, d)), 3 + |d|)
    ensures At(Overlay(buf, Short(letter, d)), 3 + |d|) == buf[3 + |d|]
  {
    hide ScanHex, IsPrefix;
    var b := Overlay(buf, Short(letter, d));
    assert b[0] == letter && b[1] == '0' as int && b[2] == ',' as int && b[3..3 + |d|] == d;
    TwoLetters('Z', b, 3 + |d|);
    TwoLetters('z', b, 3 + |d|);
    ScanReads(b, 3, |d|, 0, d);
  }

  /** The packet without the comma is accepted exactly if an earlier packet left one in its place. */
  lemma ShortNeedsComma(st: Stub, letter: u8, d: seq<u8>)
    requires st.Valid() && st.state == WaitStart && Breakpointed(letter, d)
    ensures Feed(st, Inputs(Frame(Short(letter, d)))).Some? <==> st.buf[3 + |d|] == ',' as int
  {
    hide Feed, HandlePacket, Frame, EndsInAddress, Short, Overlay, Checksum, At;
    ShortSize(letter, d);
    NoHashInAddress(letter, d);
    FrameIsAccepted(st, Short(letter, d));
    ShortEndsInAddress(st.buf, letter, d);
    StaleByteDecides(st.cpu, Overlay(st.buf, Short(letter, d)), 3 + |d|);
  }

  lemma ShortSize(letter: u8, d: seq<u8>)
    ensures |Short(letter, d)| == 3 + |d| && |Long(letter, d)| == 4 + |d|
  {
  }

  lemma AddressedIsReplied(cpu: Cpu, buf: seq<u8>, size: nat, d: seq<u8>)
    requires cpu.Valid() && Addressed(buf, size, d) && buf[0] in {'Z' as int, 'z' as int}
    ensures HandlePacket(cpu, buf, size).Replied?
  {
    hide HandlePacket, Breakpoints.Listed, HexNumber, Frame;
    if buf[0] == 'Z' as int { InsertCommand(cpu, buf, size, d); } else { RemoveCommand(cpu, buf, size, d); }
  }

  /** The packet with the comma is accepted, and leaves its comma there. */
  lemma LongLeavesComma(st: Stub, letter: u8, d: seq<u8>)
    requires st.Valid() && st.state == WaitStart && Breakpointed(letter, d)
    ensures var r := Feed(st, Inputs(Frame(Long(letter, d))));
      r.Some? && r.value.Valid() && r.value.state == WaitAck && r.value.buf[3 + |d|] == ',' as int
  {
    hide Feed, HandlePacket, Frame, Checksum, Wrap;
    NoHashInAddress(letter, d);
    FrameIsAccepted(st, Long(letter, d));
    var b := Overlay(st.buf, Long(letter, d));
    assert b[0] == letter && b[1] == '0' as int && b[2] == ',' as int && b[3..3 + |d|] == d && b[3 + |d|] == ',' as int;
    AddressedIsReplied(st.cpu, b, 4 + |d|, d);
  }

  /** So the same packet is accepted after one with the comma, and ends the process right after power-up. */
  lemma StaleCommaInStream(st: Stub, letter: u8, d: seq<u8>)
    requires st.Valid() && st.state == WaitStart && Breakpointed(letter, d)
    ensures Feed(st, Inputs(Frame(Long(letter, d)) + ['+' as int] + Frame(Short(letter, d)))).Some?
    ensures st.buf == seq(SIZE, _ => 0) ==> Feed(st, Inputs(Frame(Short(letter, d)))).None?
  {
    hide Feed, Frame, Short, Long;
    var first, second := Inputs(Frame(Long(letter, d))), Inputs(Frame(Short(letter, d)));
    var plus := Inputs([PLUS]);
    assert Inputs(Frame(Long(letter, d)) + [PLUS] + Frame(Short(letter, d))) == first + (plus + second);
    LongLeavesComma(st, letter, d);
    var t := Feed(st, first).value;
    FeedConcat(st, first, plus + second);
    FeedOne(t, plus + second);
    assert (plus + second)[0] == Input(PLUS, false) && (plus + second)[1..] == second;
    ShortNeedsComma(t.(state := WaitStart), letter, d);
    ShortNeedsComma(st, letter, d);
  }

  /** One such stream: after power-up `$Z0,0#e6` is fatal, and after `$Z0,0,#12+` it is not. */
  lemma StaleWitness(cpu: Cpu)
    requires cpu.Valid()
    ensures Session(cpu, seq(SIZE, _ => 0), [], Inputs(Ascii("$Z0,0#e6"))).None?
    ensures Session(cpu, seq(SIZE, _ => 0), [], Inputs(Ascii("$Z0,0,#12+$Z0,0#e6"))).Some?
  {
    hide Session, Feed, Inputs;
    var st := Stub(cpu, WaitStart, seq(SIZE, _ => 0), 0, 0, 0, []);
    WitnessFrames();
    var d := ['0' as int];
    StaleCommaInStream(st, 'Z' as int, d);
    FeedIsSession(st, Inputs(Ascii("$Z0,0#e6")));
    FeedIsSession(st, Inputs(Ascii("$Z0,0,#12+$Z0,0#e6")));
  }

  lemma WitnessFrames()
    ensures Frame(Short('Z' as int, ['0' as int])) == Ascii("$Z0,0#e6")
    ensures Frame(Long('Z' as int, ['0' as int])) + [PLUS] + Frame(Short('Z' as int, ['0' as int]))
         == Ascii("$Z0,0,#12+$Z0,0#e6")
  {
    hide Checksum;
    var s := Short('Z' as int, ['0' as int]);
    assert s == [0x5a, 0x30, 0x2c, 0x30];
    WitnessChecksums(s);
    assert Digits(0xe6) == [0x65, 0x36] && Digits(0x12) == [0x31, 0x32];
  }

  lemma WitnessChecksums(s: seq<u8>)
    requires s == [0x5a, 0x30, 0x2c, 0x30]
    ensures Checksum(s) == 0xe6 && Checksum(s + [',' as int]) == 0x12
  {
    SumOfFour(0x5a, 0x30, 0x2c, 0x30);
    SumConcat(s, [',' as int]);
    assert [',' as int][..0] == [];
    assert Sum([',' as int]) == 0x2c;
  }

  lemma SumOfFour(a: u8, b: u8, c: u8, d: u8)
    ensures Sum([a, b, c, d]) == a as int + b as int + c as int + d as int
  {
    assert [a, b, c, d][..3] == [a, b, c] && [a, b, c][..2] == [a, b] && [a, b][..1] == [a] && [a][..0] == [];
    assert Sum([a]) == a as int;
    assert Sum([a, b]) == a as int + b as int;
    assert Sum([a, b, c]) == a as int + b as int + c as int;
  }
}
