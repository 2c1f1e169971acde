/**
 The byte-at-a-time receiver of gdb_stub/rsp.h against a parser of whole streams:
 the packet format of section E.1 of the GDB manual, `$body#hh` with hh the sum of
 the body modulo 256.
 */
module Receiver {
  import opened Words
  import opened Hex
  import opened Packet
  import opened Commands
  import Core
  import Memory

  const PLUS: u8 := 0x2b
  const MINUS: u8 := 0x2d
  const ETX: u8 := 3

  datatype State = WaitStart | PacketData | Checksum1 | Checksum2 | WaitAck

  /** The statics of rsp_handle_byte, the machine, and everything sent so far. */
  datatype Stub = Stub(cpu: Cpu, state: State, buf: seq<u8>, iptr: nat, sum1: u8, sum2: u8, sent: seq<seq<u8>>) {
    predicate Valid() {
      cpu.Valid() && |buf| == SIZE && iptr <= SIZE
    }
  }

  /** A received byte.  After a bad checksum the source tests a variable it never set: junk says what it holds. */
  datatype Input = Input(byte: u8, junk: bool)

  // ----- the receiver -----

  function Paused(cpu: Cpu): (c: Cpu)
    requires cpu.Valid()
    ensures c.Valid()
  {
    Core.Stop(cpu, Memory.Paused)
  }

  /** None stands for RSP_FATAL. */
  function HandleByte(st: Stub, c: u8, junk: bool): (r: Option<Stub>)
    requires st.Valid()
    ensures r.Some? ==> r.value.Valid()
  {
    match st.state
    case WaitStart =>
      var t := st.(iptr := 0, sum1 := 0, sum2 := 0);
      if c == DOLLAR then Some(t.(state := PacketData))
      else if c == ETX then
        (match ReplyText(Paused(st.cpu), "S02")
         case Replied(cpu, packet) => Some(t.(cpu := cpu, sent := st.sent + [packet]))
         case _ => None)
      else Some(t)
    case PacketData =>
      if c == HASH then Some(st.(state := Checksum1))
      else if st.iptr < SIZE then
        Some(st.(buf := st.buf[st.iptr := c], iptr := st.iptr + 1, sum1 := (st.sum1 + c) % 0x100))
      else None
    case Checksum1 =>
      (match FromHexDigit(c)
       case None => None
       case Some(d) => Some(st.(sum2 := d * 0x10, state := Checksum2)))
    case Checksum2 =>
      (match FromHexDigit(c)
       case None => None
       case Some(d) => CloseFrame(st.(sum2 := Or(st.sum2, d) % 0x100), junk))
    case WaitAck =>
      if c == PLUS then Some(st.(state := WaitStart)) else None
  }

  /** The second checksum digit has been read: dispatch or refuse. */
  function CloseFrame(st: Stub, junk: bool): (r: Option<Stub>)
    requires st.Valid()
    ensures r.Some? ==> r.value.Valid()
  {
    if st.sum1 == st.sum2 then
      match HandlePacket(st.cpu, st.buf, st.iptr)
      case Exit => None
      case Silent(cpu) => Some(st.(cpu := cpu, state := WaitStart, sent := st.sent + [[PLUS]]))
      case Replied(cpu, packet) => Some(st.(cpu := cpu, state := WaitAck, sent := st.sent + [[PLUS], packet]))
    else Some(st.(state := if junk then WaitAck else WaitStart, sent := st.sent + [[MINUS]]))
  }

  function Feed(st: Stub, s: seq<Input>): (r: Option<Stub>)
    requires st.Valid()
    ensures r.Some? ==> r.value.Valid()
    decreases |s|
  {
    if s == [] then Some(st)
    else match HandleByte(st, s[0].byte, s[0].junk)
      case None => None
      case Some(t) => Feed(t, s[1..])
  }

  // ----- the parser of whole streams -----

  datatype Phase =
    Idle | InBody(body: seq<u8>) | AfterHash(body: seq<u8>) | AfterDigit(body: seq<u8>, high: u8) | AwaitAck

  /** What is left when the stream ends. */
  datatype View = View(cpu: Cpu, buf: seq<u8>, sent: seq<seq<u8>>, phase: Phase)

  function Octets(s: seq<Input>): (t: seq<u8>)
    ensures |t| == |s|
  {
    seq<u8>(|s|, i requires 0 <= i < |s| => s[i].byte)
  }

  /** Where the first `#` is, or the length. */
  function FindHash(s: seq<Input>): (n: nat)
    ensures n <= |s|
    ensures n < |s| ==> s[n].byte == HASH
    ensures forall i :: 0 <= i < n ==> s[i].byte != HASH
  {
    if s == [] || s[0].byte == HASH then 0 else 1 + FindHash(s[1..])
  }

  /** The buffer once the body has overwritten its beginning. */
  function Overlay(buf: seq<u8>, body: seq<u8>): (b: seq<u8>)
    requires |body| <= |buf|
    ensures |b| == |buf|
  {
    body + buf[|body|..]
  }

  /** Between packets: skip to `$`, taking 0x03 as an interrupt. */
  function Session(cpu: Cpu, buf: seq<u8>, sent: seq<seq<u8>>, s: seq<Input>): Option<View>
    requires cpu.Valid() && |buf| == SIZE
    decreases |s|, 0
  {
    if s == [] then Some(View(cpu, buf, sent, Idle))
    else if s[0].byte == DOLLAR then AfterDollar(cpu, buf, sent, s[1..])
    else if s[0].byte == ETX then
      match ReplyText(Paused(cpu), "S02")
      case Replied(c, packet) => Session(c, buf, sent + [packet], s[1..])
      case _ => None
    else Session(cpu, buf, sent, s[1..])
  }

  /** After `$`: the body up to `#`. */
  function AfterDollar(cpu: Cpu, buf: seq<u8>, sent: seq<seq<u8>>, s: seq<Input>): Option<View>
    requires cpu.Valid() && |buf| == SIZE
    decreases |s|, 0
  {
    var n := FindHash(s);
    if n > SIZE then None
    else
      var body := Octets(s[..n]);
      if n == |s| then Some(View(cpu, Overlay(buf, body), sent, InBody(body)))
      else Trailer(cpu, Overlay(buf, body), sent, body, s[n + 1..])
  }

  /** After `#`: two digits, and then the verdict. */
  function Trailer(cpu: Cpu, buf: seq<u8>, sent: seq<seq<u8>>, body: seq<u8>, s: seq<Input>): Option<View>
    requires cpu.Valid() && |buf| == SIZE && |body| <= SIZE
    decreases |s|, 0
  {
    if s == [] then Some(View(cpu, buf, sent, AfterHash(body)))
    else
      match FromHexDigit(s[0].byte)
      case None => None
      case Some(high) =>
        if |s| == 1 then Some(View(cpu, buf, sent, AfterDigit(body, high)))
        else
          match FromHexDigit(s[1].byte)
          case None => None
          case Some(low) => Verdict(cpu, buf, sent, body, 0x10 * high + low, s[1].junk, s[2..])
  }

  function Verdict(cpu: Cpu, buf: seq<u8>, sent: seq<seq<u8>>, body: seq<u8>, hh: nat, junk: bool,
                   s: seq<Input>): Option<View>
    requires cpu.Valid() && |buf| == SIZE && |body| <= SIZE
    decreases |s|, 1
  {
    if hh == Checksum(body) then
      match HandlePacket(cpu, buf, |body|)
      case Exit => None
      case Silent(c) => Session(c, buf, sent + [[PLUS]], s)
      case Replied(c, packet) => Acknowledged(c, buf, sent + [[PLUS], packet], s)
    else if junk then Acknowledged(cpu, buf, sent + [[MINUS]], s)
    else Session(cpu, buf, sent + [[MINUS]], s)
  }

  /** After a reply: `+` and nothing else. */
  function Acknowledged(cpu: Cpu, buf: seq<u8>, sent: seq<seq<u8>>, s: seq<Input>): Option<View>
    requires cpu.Valid() && |buf| == SIZE
    decreases |s|, 0
  {
    if s == [] then Some(View(cpu, buf, sent, AwaitAck))
    else if s[0].byte == PLUS then Session(cpu, buf, sent, s[1..])
    else None
  }

  // ----- the two agree -----

  function Abs(st: Stub): View
    requires st.Valid()
  {
    View(st.cpu, st.buf, st.sent,
         match st.state
         case WaitStart => Idle
         case PacketData => InBody(st.buf[..st.iptr])
         case Checksum1 => AfterHash(st.buf[..st.iptr])
         case Checksum2 => AfterDigit(st.buf[..st.iptr], st.sum2 / 0x10)
         case WaitAck => AwaitAck)
  }

  predicate Agree(r: Option<Stub>, v: Option<View>)
    requires r.Some? ==> r.value.Valid()
  {
    match r
    case None => v.None?
    case Some(t) => v == Some(Abs(t))
  }

  lemma {:induction false} FeedConcat(st: Stub, s: seq<Input>, t: seq<Input>)
    requires st.Valid()
    ensures Feed(st, s + t) == match Feed(st, s) case None => None case Some(u) => Feed(u, t)
    decreases |s|
  {
    hide HandleByte;
    if s == [] {
      assert s + t == t;
    } else {
      assert (s + t)[0] == s[0] && (s + t)[1..] == s[1..] + t;
      match HandleByte(st, s[0].byte, s[0].junk)
      case None =>
      case Some(u) => FeedConcat(u, s[1..], t);
    }
  }

  lemma FeedOne(st: Stub, s: seq<Input>)
    requires st.Valid() && s != []
    ensures Feed(st, s) == match HandleByte(st, s[0].byte, s[0].junk) case None => None case Some(t) => Feed(t, s[1..])
  {
  }

  lemma SumFront(c: u8, s: seq<u8>)
    ensures Sum([c] + s) == c as int + Sum(s)
  {
    SumConcat([c], s);
    assert [c][..0] == [];
    assert Sum([c]) == c as int;
  }

  /** The state after k more body bytes. */
  function WithBody(st: Stub, body: seq<u8>): (t: Stub)
    requires st.Valid() && st.iptr + |body| <= SIZE
    ensures t.Valid()
  {
    st.(buf := st.buf[..st.iptr] + body + st.buf[st.iptr + |body|..],
        iptr := st.iptr + |body|,
        sum1 := (st.sum1 + Sum(body)) % 0x100)
  }

  lemma {:induction false} FeedBody(st: Stub, s: seq<Input>)
    requires st.Valid() && st.state == PacketData && forall i :: 0 <= i < |s| ==> s[i].byte != HASH
    ensures Feed(st, s) == if st.iptr + |s| <= SIZE then Some(WithBody(st, Octets(s))) else None
    decreases |s|
  {
    hide HandleByte, Sum;
    if s == [] {
      assert Octets(s) == [] && Sum([]) == 0 by { SumOfNothing(); }
      assert st.buf[..st.iptr] + [] + st.buf[st.iptr..] == st.buf;
      SmallSum(st.sum1);
      assert WithBody(st, []) == st;
    } else {
      BodyByte(st, s[0].byte, s[0].junk);
      if st.iptr < SIZE {
        var t := HandleByte(st, s[0].byte, s[0].junk).value;
        FeedBody(t, s[1..]);
        if st.iptr + |s| <= SIZE { BodyStep(st, t, s); }
      }
    }
  }

  lemma SmallSum(x: u8)
    ensures (x + 0) % 0x100 == x
  {
  }

  lemma SumOfNothing()
    ensures Sum([]) == 0
  {
  }

  lemma BodyByte(st: Stub, c: u8, junk: bool)
    requires st.Valid() && st.state == PacketData && c != HASH
    ensures HandleByte(st, c, junk)
         == if st.iptr < SIZE then
              Some(st.(buf := st.buf[st.iptr := c], iptr := st.iptr + 1, sum1 := (st.sum1 + c) % 0x100))
            else None
  {
  }

  lemma BodyStep(st: Stub, t: Stub, s: seq<Input>)
    requires st.Valid() && s != [] && st.iptr + |s| <= SIZE
    requires t == st.(buf := st.buf[st.iptr := s[0].byte], iptr := st.iptr + 1, sum1 := (st.sum1 + s[0].byte) % 0x100)
    ensures WithBody(t, Octets(s[1..])) == WithBody(st, Octets(s))
  {
    hide Sum;
    var c, rest := s[0].byte, Octets(s[1..]);
    assert Octets(s) == [c] + rest;
    SumFront(c, rest);
    SumStep(st.sum1, c, Sum(rest));
    assert t.buf[..t.iptr] == st.buf[..st.iptr] + [c];
    assert t.buf[t.iptr + |rest|..] == st.buf[st.iptr + |s|..];
    assert st.buf[..st.iptr] + [c] + rest == st.buf[..st.iptr] + ([c] + rest);
  }

  lemma SumStep(x: u8, c: u8, n: nat)
    ensures ((x + c) % 0x100 + n) % 0x100 == (x + (c as int + n)) % 0x100
  {
  }

  /** Inside a frame whose body is in the buffer and summed. */
  predicate Holding(st: Stub, body: seq<u8>) {
    st.Valid() && st.iptr == |body| && st.buf[..st.iptr] == body && st.sum1 == Checksum(body)
  }

  lemma FreshBody(st: Stub, body: seq<u8>)
    requires st.Valid() && st.iptr == 0 && st.sum1 == 0 && |body| <= SIZE
    ensures Holding(WithBody(st, body), body) && WithBody(st, body).buf == Overlay(st.buf, body)
  {
    hide Sum;
    assert st.buf[..0] + body + st.buf[|body|..] == body + st.buf[|body|..];
  }

  /** Feeding any stream one byte at a time, starting between packets, ends exactly as the parser of the
      whole stream says: same packets dispatched, same machine, same replies, same place in the input. */
  lemma {:induction false} FeedIsSession(st: Stub, s: seq<Input>)
    requires st.Valid() && st.state == WaitStart
    ensures Agree(Feed(st, s), Session(st.cpu, st.buf, st.sent, s))
    decreases |s|, 1
  {
    hide ReplyText, AfterDollar, Paused;
    if s != [] {
      FeedOne(st, s);
      var c := s[0].byte;
      var t := st.(iptr := 0, sum1 := 0, sum2 := 0);
      if c == DOLLAR {
        BodyIsSession(t.(state := PacketData), s[1..]);
      } else if c == ETX {
        match ReplyText(Paused(st.cpu), "S02")
        case Replied(cpu, packet) => FeedIsSession(t.(cpu := cpu, sent := st.sent + [packet]), s[1..]);
        case _ =>
      } else {
        FeedIsSession(t, s[1..]);
      }
    }
  }

  lemma {:induction false} AckIsSession(st: Stub, s: seq<Input>)
    requires st.Valid() && st.state == WaitAck
    ensures Agree(Feed(st, s), Acknowledged(st.cpu, st.buf, st.sent, s))
    decreases |s|, 2
  {
    hide Session;
    if s != [] {
      FeedOne(st, s);
      if s[0].byte == PLUS { FeedIsSession(st.(state := WaitStart), s[1..]); }
    }
  }

  lemma {:induction false} BodyIsSession(st: Stub, s: seq<Input>)
    requires st.Valid() && st.state == PacketData && st.iptr == 0 && st.sum1 == 0
    ensures Agree(Feed(st, s), AfterDollar(st.cpu, st.buf, st.sent, s))
    decreases |s|, 2
  {
    hide HandleByte, Trailer, Octets, Checksum, FindHash, Overlay;
    var n := FindHash(s);
    assert s == s[..n] + s[n..];
    FeedConcat(st, s[..n], s[n..]);
    FeedBody(st, s[..n]);
    if n <= SIZE {
      var body := Octets(s[..n]);
      var u := WithBody(st, body);
      FreshBody(st, body);
      if n < |s| {
        var r := s[n..];
        assert r[0] == s[n] && r[1..] == s[n + 1..];
        FeedOne(u, r);
        HashByte(u, r[0].junk);
        TrailerIsSession(u.(state := Checksum1), body, r[1..]);
      }
    }
  }

  lemma HashByte(st: Stub, junk: bool)
    requires st.Valid() && st.state == PacketData
    ensures HandleByte(st, HASH, junk) == Some(st.(state := Checksum1))
  {
  }

  lemma {:induction false} TrailerIsSession(st: Stub, body: seq<u8>, s: seq<Input>)
    requires Holding(st, body) && st.state == Checksum1
    ensures Agree(Feed(st, s), Trailer(st.cpu, st.buf, st.sent, body, s))
    decreases |s|, 4
  {
    hide Verdict, Checksum, CloseFrame, FromHexDigit, Or;
    if s != [] {
      FeedOne(st, s);
      match FromHexDigit(s[0].byte)
      case None =>
      case Some(high) =>
        var t := st.(sum2 := high * 0x10, state := Checksum2);
        if |s| > 1 {
          FeedOne(t, s[1..]);
          assert s[1..][0] == s[1] && s[1..][1..] == s[2..];
          match FromHexDigit(s[1].byte) {
            case None =>
            case Some(low) =>
              NibblesJoin(high, low);
              VerdictIsSession(t.(sum2 := high * 0x10 + low), body, s[1].junk, s[2..]);
          }
        }
    }
  }

  lemma {:induction false} VerdictIsSession(st: Stub, body: seq<u8>, junk: bool, s: seq<Input>)
    requires Holding(st, body) && st.state == Checksum2
    ensures Agree(match CloseFrame(st, junk) case None => None case Some(t) => Feed(t, s),
                  Verdict(st.cpu, st.buf, st.sent, body, st.sum2, junk, s))
    decreases |s|, 3
  {
    hide HandlePacket, Checksum, Session, Acknowledged, HandleByte;
    match CloseFrame(st, junk)
    case None =>
    case Some(t) =>
      if t.state == WaitStart { FeedIsSession(t, s); } else { AckIsSession(t, s); }
  }

  // ----- what the writer emits, the receiver accepts -----

  function Inputs(s: seq<u8>): (t: seq<Input>)
    ensures |t| == |s|
  {
    seq<Input>(|s|, i requires 0 <= i < |s| => Input(s[i], false))
  }

  lemma DigitsAreNibbles(b: u8)
    ensures FromHexDigit(Digits(b)[0]) == Some(b / 0x10) && FromHexDigit(Digits(b)[1]) == Some(b % 0x10)
    ensures Or(b / 0x10 * 0x10, b % 0x10) == b
  {
    hide Or;
    NibblesJoin(b / 0x10, b % 0x10);
  }

  lemma FirstDigit(st: Stub, h: u8, junk: bool)
    requires st.Valid() && st.state == Checksum1 && IsHexDigit(h)
    ensures HandleByte(st, h, junk) == Some(st.(sum2 := FromHexDigit(h).value * 0x10, state := Checksum2))
  {
    hide FromHexDigit, IsHexDigit;
  }

  lemma SecondDigit(st: Stub, h: u8, junk: bool)
    requires st.Valid() && st.state == Checksum2 && IsHexDigit(h)
    ensures HandleByte(st, h, junk) == CloseFrame(st.(sum2 := Or(st.sum2, FromHexDigit(h).value) % 0x100), junk)
  {
    hide FromHexDigit, IsHexDigit, CloseFrame, Or;
  }

  /** From `#` on: the two digits make sum2, and the frame is closed. */
  lemma FeedDigits(st: Stub, h1: u8, h2: u8, junk: bool)
    requires st.Valid() && st.state == PacketData && IsHexDigit(h1) && IsHexDigit(h2)
    ensures var hh := 0x10 * FromHexDigit(h1).value + FromHexDigit(h2).value;
      Feed(st, [Input(HASH, false), Input(h1, false), Input(h2, junk)])
        == CloseFrame(st.(state := Checksum2, sum2 := hh), junk)
  {
    hide HandleByte, CloseFrame, FromHexDigit, IsHexDigit, Or;
    var s := [Input(HASH, false), Input(h1, false), Input(h2, junk)];
    assert s[1..] == [Input(h1, false), Input(h2, junk)];
    assert s[1..][1..] == [Input(h2, junk)] && s[1..][1..][1..] == [];
    var t := st.(state := Checksum1);
    var u := t.(sum2 := FromHexDigit(h1).value * 0x10, state := Checksum2);
    NibblesJoin(FromHexDigit(h1).value, FromHexDigit(h2).value);
    HashByte(st, false);
    FirstDigit(t, h1, false);
    SecondDigit(u, h2, junk);
    FeedOne(st, s);
    FeedOne(t, s[1..]);
    FeedOne(u, s[1..][1..]);
  }

  lemma FeedTrailer(st: Stub, b: u8)
    requires st.Valid() && st.state == PacketData
    ensures Feed(st, Inputs([HASH] + Digits(b))) == CloseFrame(st.(state := Checksum2, sum2 := b), false)
  {
    hide CloseFrame, Digits, FromHexDigit, Feed;
    var d := Digits(b);
    assert Inputs([HASH] + d) == [Input(HASH, false), Input(d[0], false), Input(d[1], false)];
    DigitsAreNibbles(b);
    FeedDigits(st, d[0], d[1], false);
  }

  /** A frame around any body without `#` that fits is received whole: the checksum matches, the buffer
      holds the body, and the packet is dispatched. */
  lemma FrameIsAccepted(st: Stub, body: seq<u8>)
    requires st.Valid() && st.state == WaitStart && |body| <= SIZE && HASH !in body
    ensures Feed(st, Inputs(Frame(body)))
         == CloseFrame(st.(state := Checksum2, buf := Overlay(st.buf, body), iptr := |body|,
                           sum1 := Checksum(body), sum2 := Checksum(body)), false)
  {
    hide CloseFrame, Digits, Checksum, Sum, HandleByte;
    var s := Inputs(Frame(body));
    var mid, end := Inputs(body), Inputs([HASH] + Digits(Checksum(body)));
    assert s[0].byte == DOLLAR && s[1..] == mid + end;
    var t := st.(iptr := 0, sum1 := 0, sum2 := 0, state := PacketData);
    FeedOne(st, s);
    DollarByte(st, s[0].junk);
    FeedConcat(t, mid, end);
    FeedBody(t, mid);
    assert Octets(mid) == body;
    FreshBody(t, body);
    FeedTrailer(WithBody(t, body), Checksum(body));
  }

  lemma DollarByte(st: Stub, junk: bool)
    requires st.Valid() && st.state == WaitStart
    ensures HandleByte(st, DOLLAR, junk) == Some(st.(iptr := 0, sum1 := 0, sum2 := 0, state := PacketData))
  {
  }

  /** Every packet the writer can emit is received, dispatched with its body, and unescapes to its payload. */
  lemma EmittedIsAccepted(st: Stub, chunks: seq<Chunk>)
    requires st.Valid() && st.state == WaitStart && Strings(chunks) && Emit(chunks).Some?
    ensures var body := Body(chunks);
      && |body| <= 1019
      && Feed(st, Inputs(Emit(chunks).value))
        == CloseFrame(st.(state := Checksum2, buf := Overlay(st.buf, body), iptr := |body|,
                          sum1 := Checksum(body), sum2 := Checksum(body)), false)
    ensures Unescape(Body(chunks)) == Payload(chunks)
  {
    hide CloseFrame, Frame, Feed, Body, Emit, Unescape, Payload;
    EmitIsFrame(chunks);
    FrameIsAccepted(st, Body(chunks));
    UnescapeIsPayload(chunks);
  }
}
