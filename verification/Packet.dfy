/**
 The packet writer of gdb_stub/rsp.h, as values, in place, and as a specification:
 the framing of section E.1 of the GDB manual.
 */
module Packet {
  import opened Words
  import opened Hex
  import Immediates

  const SIZE: nat := 1024

  const DOLLAR: u8 := 0x24
  const HASH: u8 := 0x23
  const ESCAPE: u8 := 0x7d

  // ----- the specification -----

  predicate Special(c: u8) {
    c == HASH || c == DOLLAR || c == ESCAPE
  }

  /** `c ^ 0x20`. */
  function Flip(c: u8): u8 {
    Pow2Values();
    XorBound(c, 0x20, 8);
    Xor(c, 0x20)
  }

  function EscapeOne(c: u8): seq<u8> {
    if Special(c) then [ESCAPE, Flip(c)] else [c]
  }

  function Escape(data: seq<u8>): seq<u8> {
    if data == [] then [] else EscapeOne(data[0]) + Escape(data[1..])
  }

  /** What a receiver that handles escapes makes of an escaped body. */
  function Unescape(body: seq<u8>): seq<u8> {
    if body == [] then []
    else if body[0] == ESCAPE && |body| >= 2 then [Flip(body[1])] + Unescape(body[2..])
    else [body[0]] + Unescape(body[1..])
  }

  function Sum(s: seq<u8>): nat {
    if s == [] then 0 else Sum(s[..|s| - 1]) + s[|s| - 1]
  }

  function Checksum(s: seq<u8>): u8 {
    Sum(s) % 0x100
  }

  function Frame(body: seq<u8>): seq<u8> {
    [DOLLAR] + body + [HASH] + Digits(Checksum(body))
  }

  /** What the handlers put in a packet: text, which is escaped, and bytes, written as hex. */
  datatype Chunk = Text(data: seq<u8>) | Bytes(bytes: seq<u8>)

  function HexOf(bytes: seq<u8>): seq<u8> {
    if bytes == [] then [] else HexOf(bytes[..|bytes| - 1]) + Digits(bytes[|bytes| - 1])
  }

  function Body(chunks: seq<Chunk>): seq<u8> {
    if chunks == [] then []
    else Body(chunks[..|chunks| - 1]) + BodyOf(chunks[|chunks| - 1])
  }

  function BodyOf(chunk: Chunk): seq<u8> {
    match chunk
    case Text(data) => Escape(data)
    case Bytes(bytes) => HexOf(bytes)
  }

  // ----- the writer, as values: the filled part of the buffer and the checksum -----

  datatype Writer = Writer(filled: seq<u8>, checksum: u8)

  function Begin(): Writer {
    Writer([DOLLAR], 0)
  }

  /** None stands for RSP_FATAL. */
  function AppendRaw(p: Writer, b: u8): Option<Writer> {
    if |p.filled| < SIZE then Some(Writer(p.filled + [b], (p.checksum + b) % 0x100)) else None
  }

  function AppendAll(p: Writer, s: seq<u8>): Option<Writer>
    decreases |s|
  {
    if s == [] then Some(p)
    else match AppendRaw(p, s[0])
      case None => None
      case Some(q) => AppendAll(q, s[1..])
  }

  function AppendText(p: Writer, data: seq<u8>): Option<Writer>
    decreases |data|
  {
    if data == [] then Some(p)
    else if |p.filled| >= SIZE then None
    else
      var c := data[0];
      var q := if Special(c) then AppendRaw(p, ESCAPE) else Some(p);
      match q
      case None => None
      case Some(q) =>
        match AppendRaw(q, if Special(c) then Flip(c) else c)
        case None => None
        case Some(t) => AppendText(t, data[1..])
  }

  function AppendU8(p: Writer, b: u8): Option<Writer> {
    match (ToHexDigit(And(Shr(b, 4), 0xf)), ToHexDigit(And(b, 0xf)))
    case (Some(high), Some(low)) =>
      (match AppendRaw(p, high) case None => None case Some(q) => AppendRaw(q, low))
    case _ => None
  }

  function AppendBytes(p: Writer, bytes: seq<u8>): Option<Writer> {
    if bytes == [] then Some(p)
    else match AppendBytes(p, bytes[..|bytes| - 1])
      case None => None
      case Some(q) => AppendU8(q, bytes[|bytes| - 1])
  }

  function AppendChunks(p: Writer, chunks: seq<Chunk>): Option<Writer> {
    if chunks == [] then Some(p)
    else match AppendChunks(p, chunks[..|chunks| - 1])
      case None => None
      case Some(q) =>
        match chunks[|chunks| - 1]
        case Text(data) => AppendText(q, data)
        case Bytes(bytes) => AppendBytes(q, bytes)
  }

  function End(p: Writer): Option<Writer> {
    match AppendRaw(p, HASH)
    case None => None
    case Some(q) =>
      match AppendU8(q, p.checksum)
      case None => None
      case Some(t) => AppendRaw(t, 0)
  }

  /** What RSP_SEND prints of the buffer: the bytes before the first NUL. */
  function CString(s: seq<u8>): seq<u8> {
    if s == [] || s[0] == 0 then [] else [s[0]] + CString(s[1..])
  }

  /** A whole packet: begin, append, end, send. */
  function Emit(chunks: seq<Chunk>): Option<seq<u8>> {
    match AppendChunks(Begin(), chunks)
    case None => None
    case Some(p) =>
      match End(p)
      case None => None
      case Some(q) => Some(CString(q.filled))
  }

  // ----- the writer meets the specification -----

  lemma {:induction false} SumConcat(s: seq<u8>, t: seq<u8>)
    ensures Sum(s + t) == Sum(s) + Sum(t)
  {
    if t == [] {
      assert s + t == s;
    } else {
      SumConcat(s, t[..|t| - 1]);
      assert (s + t)[..|s + t| - 1] == s + t[..|t| - 1];
    }
  }

  /** The checksum kept by every append is the sum of what follows the dollar sign. */
  predicate Consistent(p: Writer) {
    1 <= |p.filled| && p.filled[0] == DOLLAR && p.checksum == Checksum(p.filled[1..])
  }

  /** Appending bytes one by one succeeds iff they fit, and keeps the checksum. */
  lemma {:induction false} AppendAllFits(p: Writer, s: seq<u8>)
    requires Consistent(p) && |p.filled| <= SIZE
    ensures var r := AppendAll(p, s);
      && (r.Some? <==> |p.filled| + |s| <= SIZE)
      && (r.Some? ==> r.value.filled == p.filled + s && Consistent(r.value))
    decreases |s|
  {
    if s != [] && |p.filled| < SIZE {
      var q := AppendRaw(p, s[0]).value;
      assert q.filled[1..] == p.filled[1..] + [s[0]];
      assert (p.filled[1..] + [s[0]])[..|p.filled| - 1] == p.filled[1..];
      AppendAllFits(q, s[1..]);
      assert p.filled + s == q.filled + s[1..];
    } else {
      assert p.filled + [] == p.filled;
    }
  }

  lemma {:induction false} AppendAllConcat(p: Writer, s: seq<u8>, t: seq<u8>)
    ensures AppendAll(p, s + t) == match AppendAll(p, s) case None => None case Some(q) => AppendAll(q, t)
    decreases |s|
  {
    if s == [] {
      assert s + t == t;
    } else {
      assert (s + t)[1..] == s[1..] + t;
      match AppendRaw(p, s[0])
      case None =>
      case Some(q) => AppendAllConcat(q, s[1..], t);
    }
  }

  lemma AppendOne(p: Writer, c: u8)
    ensures AppendAll(p, [c]) == AppendRaw(p, c)
  {
    assert [c][1..] == [];
  }

  lemma AppendTwo(p: Writer, c: u8, d: u8)
    ensures AppendAll(p, [c, d]) == match AppendRaw(p, c) case None => None case Some(q) => AppendRaw(q, d)
  {
    assert [c, d] == [c] + [d];
    AppendAllConcat(p, [c], [d]);
    AppendOne(p, c);
    match AppendRaw(p, c)
    case None =>
    case Some(q) => AppendOne(q, d);
  }

  lemma {:induction false} TextIsEscape(p: Writer, data: seq<u8>)
    ensures AppendText(p, data) == AppendAll(p, Escape(data))
    decreases |data|
  {
    hide AppendAll, Flip;
    if data == [] {
      NothingAppended(p);
    } else {
      var c := data[0];
      AppendAllConcat(p, EscapeOne(c), Escape(data[1..]));
      AppendOne(p, c);
      AppendTwo(p, ESCAPE, Flip(c));
      match AppendAll(p, EscapeOne(c))
      case None =>
      case Some(q) => TextIsEscape(q, data[1..]);
    }
  }

  lemma NothingAppended(p: Writer)
    ensures AppendAll(p, []) == Some(p)
  {
  }

  lemma U8IsDigits(p: Writer, b: u8)
    ensures AppendU8(p, b) == AppendAll(p, Digits(b))
  {
    hide And, Shr, AppendAll, AppendRaw;
    NibblesOf(b);
    AppendTwo(p, Digits(b)[0], Digits(b)[1]);
  }

  lemma NibblesOf(b: u8)
    ensures And(Shr(b, 4), 0xf) == b / 0x10 && And(b, 0xf) == b % 0x10
  {
    hide And, Shr, Pow2;
    Pow2Values();
    Immediates.Extract(b, 4, 4, 0x10, 0x10);
    AndLowMask(b, 4);
  }

  lemma {:induction false} BytesAreHex(p: Writer, bytes: seq<u8>)
    ensures AppendBytes(p, bytes) == AppendAll(p, HexOf(bytes))
  {
    hide AppendAll, AppendU8, Digits;
    if bytes == [] {
      NothingAppended(p);
    } else {
      var front, last := bytes[..|bytes| - 1], bytes[|bytes| - 1];
      BytesAreHex(p, front);
      AppendAllConcat(p, HexOf(front), Digits(last));
      match AppendBytes(p, front)
      case None =>
      case Some(q) => U8IsDigits(q, last);
    }
  }

  /** Once an append has failed, every longer one fails. */
  lemma {:induction false} AppendBytesPrefix(p: Writer, bytes: seq<u8>, k: nat)
    requires k <= |bytes| && AppendBytes(p, bytes[..k]).None?
    ensures AppendBytes(p, bytes).None?
    decreases |bytes|
  {
    hide AppendU8;
    if k < |bytes| {
      var front := bytes[..|bytes| - 1];
      assert front[..k] == bytes[..k];
      AppendBytesPrefix(p, front, k);
    } else {
      assert bytes[..k] == bytes;
    }
  }

  /** Bytes fit iff two digits each fit; nothing else can go wrong. */
  lemma BytesFit(p: Writer, bytes: seq<u8>)
    requires Consistent(p) && |p.filled| <= SIZE
    ensures var r := AppendBytes(p, bytes);
      && (r.Some? <==> |p.filled| + 2 * |bytes| <= SIZE)
      && (r.Some? ==> |r.value.filled| == |p.filled| + 2 * |bytes| && Consistent(r.value))
  {
    hide AppendBytes, AppendAll, HexOf;
    BytesAreHex(p, bytes);
    AppendAllFits(p, HexOf(bytes));
    HexIsClean(bytes);
  }

  lemma {:induction false} AppendBytesConcat(p: Writer, a: seq<u8>, b: seq<u8>)
    ensures AppendBytes(p, a + b) == match AppendBytes(p, a) case None => None case Some(q) => AppendBytes(q, b)
    decreases |b|
  {
    hide AppendU8;
    if b == [] {
      assert a + b == a;
    } else {
      assert (a + b)[..|a + b| - 1] == a + b[..|b| - 1];
      AppendBytesConcat(p, a, b[..|b| - 1]);
    }
  }

  lemma {:induction false} ChunksAreBody(p: Writer, chunks: seq<Chunk>)
    ensures AppendChunks(p, chunks) == AppendAll(p, Body(chunks))
  {
    hide AppendAll, AppendText, AppendBytes, Escape, HexOf;
    if chunks == [] {
      NothingAppended(p);
    } else {
      var front, last := chunks[..|chunks| - 1], chunks[|chunks| - 1];
      ChunksAreBody(p, front);
      AppendAllConcat(p, Body(front), BodyOf(last));
      match AppendChunks(p, front)
      case None =>
      case Some(q) =>
        match last {
          case Text(data) => TextIsEscape(q, data);
          case Bytes(bytes) => BytesAreHex(q, bytes);
        }
    }
  }

  lemma EndAppends(p: Writer)
    requires Consistent(p) && |p.filled| <= SIZE
    ensures var r := End(p);
      && (r.Some? <==> |p.filled| + 4 <= SIZE)
      && (r.Some? ==> r.value.filled == p.filled + [HASH] + Digits(p.checksum) + [0])
  {
    hide AppendAll, AppendU8, Digits;
    if |p.filled| < SIZE {
      var q := AppendRaw(p, HASH).value;
      AppendOne(p, HASH);
      AppendAllFits(p, [HASH]);
      U8IsDigits(q, p.checksum);
      AppendAllFits(q, Digits(p.checksum));
    }
  }

  // ----- bodies hold nothing that could be taken for framing -----

  /** No NUL, `$` or `#`. */
  predicate Clean(body: seq<u8>) {
    forall i :: 0 <= i < |body| ==> body[i] != 0 && body[i] != DOLLAR && body[i] != HASH
  }

  /** C strings hold no NUL. */
  predicate Strings(chunks: seq<Chunk>) {
    forall i :: 0 <= i < |chunks| && chunks[i].Text? ==> 0 !in chunks[i].data
  }

  lemma {:induction false} XorTwice(a: nat, b: nat)
    ensures Xor(Xor(a, b), b) == a
    decreases a + b
  {
    hide Xor;
    XorHalves(a, b);
    XorHalves(Xor(a, b), b);
    if a + b == 0 { XorZero(); } else { XorTwice(a / 2, b / 2); }
  }

  lemma XorHalves(a: nat, b: nat)
    ensures Xor(a, b) == 2 * Xor(a / 2, b / 2) + BitValue(a % 2 != b % 2)
  {
  }

  lemma FlipOfSpecial(c: u8)
    requires Special(c)
    ensures Flip(c) in {3, 4, 0x5d} && Flip(Flip(c)) == c
  {
    hide Xor;
    XorTwice(c, 0x20);
    FlipAtFive(c);
  }

  /** Flipping bit 5, one half at a time. */
  lemma FlipAtFive(c: u8)
    requires c in {HASH, DOLLAR, ESCAPE}
    ensures Xor(c, 0x20) == if c == HASH then 3 else if c == DOLLAR then 4 else 0x5d
  {
    hide Xor;
    XorZero();
    if c == HASH {
      XorHalves(0x23, 0x20); XorHalves(0x11, 0x10); XorHalves(8, 8); XorHalves(4, 4); XorHalves(2, 2); XorHalves(1, 1);
    } else if c == DOLLAR {
      XorHalves(0x24, 0x20); XorHalves(0x12, 0x10); XorHalves(9, 8); XorHalves(4, 4); XorHalves(2, 2); XorHalves(1, 1);
    } else {
      XorHalves(0x7d, 0x20); XorHalves(0x3e, 0x10); XorHalves(0x1f, 8);
      XorHalves(0xf, 4); XorHalves(7, 2); XorHalves(3, 1);
    }
  }

  lemma XorZero()
    ensures Xor(0, 0) == 0 && Xor(1, 0) == 1
  {
  }

  lemma {:induction false} EscapeIsClean(data: seq<u8>)
    requires 0 !in data
    ensures Clean(Escape(data))
  {
    hide Flip;
    if data != [] {
      assert data[0] in data && forall c :: c in data[1..] ==> c in data;
      EscapeIsClean(data[1..]);
      if Special(data[0]) { FlipOfSpecial(data[0]); }
    }
  }

  /** Text as it was given, bytes as their digits: what the receiving end is to see. */
  function Payload(chunks: seq<Chunk>): seq<u8> {
    if chunks == [] then []
    else
      var last := chunks[|chunks| - 1];
      Payload(chunks[..|chunks| - 1]) + match last case Text(data) => data case Bytes(bytes) => HexOf(bytes)
  }

  lemma UnescapeOne(c: u8, rest: seq<u8>)
    ensures Unescape(EscapeOne(c) + rest) == [c] + Unescape(rest)
  {
    hide Flip;
    var s := EscapeOne(c) + rest;
    if Special(c) {
      FlipOfSpecial(c);
      assert s[0] == ESCAPE && s[1] == Flip(c) && s[2..] == rest;
    } else {
      assert s[0] == c && s[1..] == rest;
    }
  }

  lemma {:induction false} UnescapeText(data: seq<u8>, rest: seq<u8>)
    ensures Unescape(Escape(data) + rest) == data + Unescape(rest)
  {
    hide EscapeOne, Unescape;
    if data == [] {
      assert Escape(data) + rest == rest;
    } else {
      UnescapeText(data[1..], rest);
      UnescapeOne(data[0], Escape(data[1..]) + rest);
      assert Escape(data) + rest == EscapeOne(data[0]) + (Escape(data[1..]) + rest);
      assert data == [data[0]] + data[1..];
    }
  }

  /** Escaping is undone by dropping each `}` and flipping the byte after it. */
  lemma UnescapeEscape(data: seq<u8>)
    ensures Unescape(Escape(data)) == data
  {
    hide Escape;
    UnescapeText(data, []);
    assert Escape(data) + [] == Escape(data) && data + [] == data;
  }

  lemma {:induction false} UnescapePlain(s: seq<u8>, rest: seq<u8>)
    requires ESCAPE !in s
    ensures Unescape(s + rest) == s + Unescape(rest)
  {
    if s == [] {
      assert s + rest == rest;
    } else {
      assert s[0] in s && forall c :: c in s[1..] ==> c in s;
      assert (s + rest)[1..] == s[1..] + rest;
      UnescapePlain(s[1..], rest);
      assert s == [s[0]] + s[1..];
    }
  }

  lemma {:induction false} NoEscapeInHex(bytes: seq<u8>)
    ensures ESCAPE !in HexOf(bytes)
  {
    if bytes != [] { NoEscapeInHex(bytes[..|bytes| - 1]); }
  }

  /** Unescaping the body of any packet gives back its payload, whatever chunks it is made of. */
  lemma {:induction false} UnescapeBody(chunks: seq<Chunk>, rest: seq<u8>)
    ensures Unescape(Body(chunks) + rest) == Payload(chunks) + Unescape(rest)
  {
    hide Escape, HexOf, Unescape;
    if chunks == [] {
      assert Body(chunks) + rest == rest;
    } else {
      var front, last := chunks[..|chunks| - 1], chunks[|chunks| - 1];
      assert Body(chunks) + rest == Body(front) + (BodyOf(last) + rest);
      UnescapeBody(front, BodyOf(last) + rest);
      match last
      case Text(data) => UnescapeText(data, rest);
      case Bytes(bytes) =>
        NoEscapeInHex(bytes);
        UnescapePlain(HexOf(bytes), rest);
    }
  }

  lemma UnescapeIsPayload(chunks: seq<Chunk>)
    ensures Unescape(Body(chunks)) == Payload(chunks)
  {
    hide Body, Payload;
    UnescapeBody(chunks, []);
    assert Body(chunks) + [] == Body(chunks) && Payload(chunks) + [] == Payload(chunks);
  }

  lemma {:induction false} HexIsClean(bytes: seq<u8>)
    ensures Clean(HexOf(bytes)) && |HexOf(bytes)| == 2 * |bytes|
  {
    if bytes != [] { HexIsClean(bytes[..|bytes| - 1]); }
  }

  lemma {:induction false} BodyIsClean(chunks: seq<Chunk>)
    requires Strings(chunks)
    ensures Clean(Body(chunks))
  {
    hide Escape, HexOf;
    if chunks != [] {
      var front, last := chunks[..|chunks| - 1], chunks[|chunks| - 1];
      BodyIsClean(front);
      match last
      case Text(data) => EscapeIsClean(data);
      case Bytes(bytes) => HexIsClean(bytes);
    }
  }

  lemma {:induction false} CStringOfClean(s: seq<u8>)
    requires 0 !in s
    ensures CString(s + [0]) == s
  {
    if s != [] {
      assert (s + [0])[1..] == s[1..] + [0];
      assert s[0] in s && forall c :: c in s[1..] ==> c in s;
      CStringOfClean(s[1..]);
    }
  }

  /** Every packet the writer emits is the manual's frame around its escaped body, and it fails, for want
      of room, exactly when that body is longer than 1019 bytes. */
  lemma EmitIsFrame(chunks: seq<Chunk>)
    requires Strings(chunks)
    ensures Emit(chunks) == if |Body(chunks)| <= 1019 then Some(Frame(Body(chunks))) else None
    ensures Clean(Body(chunks))
  {
    hide AppendAll, AppendChunks, Body, End, Digits, Checksum;
    var body := Body(chunks);
    BodyIsClean(chunks);
    ChunksAreBody(Begin(), chunks);
    BeginIsConsistent();
    AppendAllFits(Begin(), body);
    match AppendAll(Begin(), body)
    case None =>
    case Some(p) =>
      EndAppends(p);
      assert p.filled[1..] == body;
      FrameHasNoNul(body);
      assert p.filled + [HASH] + Digits(p.checksum) + [0] == Frame(body) + [0];
      CStringOfClean(Frame(body));
  }

  lemma BeginIsConsistent()
    ensures Consistent(Begin())
  {
  }

  lemma FrameHasNoNul(body: seq<u8>)
    requires Clean(body)
    ensures 0 !in Frame(body)
  {
  }
}
