/**
 Byte-addressed RAM, the one memory-mapped device of the core (the
 interrupt-enable word) and the host's memory-mapped I/O.
 */
module Memory {
  import opened Words
  import Immediates

  type u16 = x: int | 0 <= x < 0x1_0000

  const CONTROLLER: u32 := 0x9000_0000

  datatype Status = Running | Halted | Paused | Ebreak | InvalidInstruction | InvalidMemoryAccess

  /** What the ecall hook leaves behind. */
  datatype EcallResult = EcallResult(status: Status, r: seq<u32>, mem: seq<u8>)

  /** What the embedding program answers during one cycle: memory-mapped accesses and ecall. */
  datatype Host = Host(
    load8: u32 -> Option<u8>, load16: u32 -> Option<u16>, load32: u32 -> Option<u32>,
    store8: (u32, u8) -> bool, store16: (u32, u16) -> bool, store32: (u32, u32) -> bool,
    ecall: (seq<u32>, seq<u8>) -> EcallResult)

  /** The hook may change status, registers and RAM; an answer of another shape changes only the status. */
  function EcallAnswer(host: Host, r: seq<u32>, mem: seq<u8>): (a: EcallResult)
    ensures |a.r| == |r| && |a.mem| == |mem|
  {
    var a := host.ecall(r, mem);
    if |a.r| == |r| && |a.mem| == |mem| then a else EcallResult(a.status, r, mem)
  }

  predicate RamSize(mem: seq<u8>) {
    4 <= |mem| < TWO_32
  }

  function Word16(mem: seq<u8>, a: nat): u16
    requires a + 2 <= |mem|
  {
    mem[a] as int + 0x100 * mem[a + 1] as int
  }

  function Word32(mem: seq<u8>, a: nat): u32
    requires a + 4 <= |mem|
  {
    mem[a] as int + 0x100 * mem[a + 1] as int + 0x1_0000 * mem[a + 2] as int + 0x100_0000 * mem[a + 3] as int
  }

  function Load8(mem: seq<u8>, host: Host, addr: u32): Option<u8>
    requires RamSize(mem)
  {
    if addr <= |mem| - 1 then Some(mem[addr]) else host.load8(addr)
  }

  function Load16(mem: seq<u8>, host: Host, addr: u32): Option<u16>
    requires RamSize(mem)
  {
    if addr <= |mem| - 2 then Some(Word16(mem, addr)) else host.load16(addr)
  }

  function Load32(mem: seq<u8>, ie: u32, host: Host, addr: u32): Option<u32>
    requires RamSize(mem)
  {
    if addr <= |mem| - 4 then Some(Word32(mem, addr))
    else if addr == CONTROLLER then Some(ie)
    else host.load32(addr)
  }

  function Put16(mem: seq<u8>, a: nat, v: u16): (m: seq<u8>)
    requires a + 2 <= |mem|
    ensures |m| == |mem|
  {
    mem[a := v % 0x100][a + 1 := v / 0x100]
  }

  function Put32(mem: seq<u8>, a: nat, v: u32): (m: seq<u8>)
    requires a + 4 <= |mem|
    ensures |m| == |mem|
  {
    mem[a := v % 0x100][a + 1 := v / 0x100 % 0x100][a + 2 := v / 0x1_0000 % 0x100][a + 3 := v / 0x100_0000]
  }

  function Store8(mem: seq<u8>, host: Host, addr: u32, v: u8): (m: Option<seq<u8>>)
    requires RamSize(mem)
    ensures m.Some? ==> |m.value| == |mem|
  {
    if addr <= |mem| - 1 then Some(mem[addr := v])
    else if host.store8(addr, v) then Some(mem) else None
  }

  function Store16(mem: seq<u8>, host: Host, addr: u32, v: u16): (m: Option<seq<u8>>)
    requires RamSize(mem)
    ensures m.Some? ==> |m.value| == |mem|
  {
    if addr <= |mem| - 2 then Some(Put16(mem, addr, v))
    else if host.store16(addr, v) then Some(mem) else None
  }

  /** The new RAM and the new interrupt-enable word. */
  function Store32(mem: seq<u8>, ie: u32, host: Host, addr: u32, v: u32): (m: Option<(seq<u8>, u32)>)
    requires RamSize(mem)
    ensures m.Some? ==> |m.value.0| == |mem|
  {
    if addr <= |mem| - 4 then Some((Put32(mem, addr, v), ie))
    else if addr == CONTROLLER then Some((mem, v))
    else if host.store32(addr, v) then Some((mem, ie)) else None
  }

  datatype Width = Byte | Half | Word {
    function Size(): nat {
      match this case Byte => 1 case Half => 2 case Word => 4
    }
  }

  function Load(width: Width, mem: seq<u8>, ie: u32, host: Host, addr: u32): Option<u32>
    requires RamSize(mem)
  {
    match width
    case Byte => (match Load8(mem, host, addr) case Some(v) => Some(v) case None => None)
    case Half => (match Load16(mem, host, addr) case Some(v) => Some(v) case None => None)
    case Word => Load32(mem, ie, host, addr)
  }

  /** Stores the low bytes of v, masked as the store instructions mask them. */
  function Store(width: Width, mem: seq<u8>, ie: u32, host: Host, addr: u32, v: u32): (m: Option<(seq<u8>, u32)>)
    requires RamSize(mem)
    ensures m.Some? ==> |m.value.0| == |mem|
  {
    match width
    case Byte =>
      (match Store8(mem, host, addr, And(v, 0xff)) case Some(m) => Some((m, ie)) case None => None)
    case Half =>
      (match Store16(mem, host, addr, And(v, 0xffff)) case Some(m) => Some((m, ie)) case None => None)
    case Word =>
      Store32(mem, ie, host, addr, v)
  }

  // ----- the little-endian reading of the same accesses -----

  function FromBytes(s: seq<u8>): (n: nat)
  {
    if s == [] then 0 else s[0] + 0x100 * FromBytes(s[1..])
  }

  function ToBytes(v: nat, n: nat): (s: seq<u8>)
    ensures |s| == n
  {
    if n == 0 then [] else [v % 0x100] + ToBytes(v / 0x100, n - 1)
  }

  /** RAM with the n bytes at `a` replaced by the little-endian digits of v. */
  function Splice(mem: seq<u8>, a: nat, v: nat, n: nat): (m: seq<u8>)
    requires a + n <= |mem|
    ensures |m| == |mem|
  {
    mem[..a] + ToBytes(v, n) + mem[a + n..]
  }

  lemma {:induction false} BytesRoundTrip(s: seq<u8>)
    ensures ToBytes(FromBytes(s), |s|) == s
  {
    if s != [] {
      BytesRoundTrip(s[1..]);
      assert s == [s[0]] + s[1..];
      assert FromBytes(s) / 0x100 == FromBytes(s[1..]);
    }
  }

  lemma {:induction false} ValueRoundTrip(v: nat, n: nat)
    ensures FromBytes(ToBytes(v, n)) == v % Pow2(8 * n)
  {
    if n != 0 {
      var s := ToBytes(v, n);
      assert s[1..] == ToBytes(v / 0x100, n - 1);
      ValueRoundTrip(v / 0x100, n - 1);
      Pow2Add(8, 8 * (n - 1));
      assert Pow2(8) == 0x100;
      SplitLowByte(v, Pow2(8 * (n - 1)));
    }
  }

  lemma SplitLowByte(v: nat, p: nat)
    requires p > 0
    ensures v % 0x100 + 0x100 * (v / 0x100 % p) == v % (0x100 * p)
  {
    var q, r := v / 0x100 / p, v / 0x100 % p;
    assert v / 0x100 == q * p + r;
    assert q * (0x100 * p) == 0x100 * (q * p);
    DivideUnique(v, 0x100 * p, q, v % 0x100 + 0x100 * r);
  }

  lemma WordsAreLittleEndian(mem: seq<u8>, a: nat)
    ensures a + 1 <= |mem| ==> FromBytes(mem[a..a + 1]) == mem[a]
    ensures a + 2 <= |mem| ==> FromBytes(mem[a..a + 2]) == Word16(mem, a)
    ensures a + 4 <= |mem| ==> FromBytes(mem[a..a + 4]) == Word32(mem, a)
  {
    if a + 1 <= |mem| { FirstByte(mem, a, a + 1); }
    if a + 2 <= |mem| { FirstByte(mem, a, a + 2); FirstByte(mem, a + 1, a + 2); }
    if a + 4 <= |mem| {
      FirstByte(mem, a, a + 4);
      FirstByte(mem, a + 1, a + 4);
      FirstByte(mem, a + 2, a + 4);
      FirstByte(mem, a + 3, a + 4);
    }
  }

  lemma FirstByte(mem: seq<u8>, a: nat, b: nat)
    requires a < b <= |mem|
    ensures FromBytes(mem[a..b]) == mem[a] + 0x100 * FromBytes(mem[a + 1..b])
  {
    assert mem[a..b][1..] == mem[a + 1..b];
  }

  lemma PutsAreSplices(mem: seq<u8>, a: nat, v: u32)
    ensures a + 1 <= |mem| ==> mem[a := v % 0x100] == Splice(mem, a, v, 1)
    ensures a + 2 <= |mem| && v < 0x1_0000 ==> Put16(mem, a, v) == Splice(mem, a, v, 2)
    ensures a + 4 <= |mem| ==> Put32(mem, a, v) == Splice(mem, a, v, 4)
  {
    assert ToBytes(v, 1) == [v % 0x100];
    TwoDigits(v);
    FourBytes(v);
  }

  lemma FourBytes(v: u32)
    ensures ToBytes(v, 4) == [v % 0x100, v / 0x100 % 0x100, v / 0x1_0000 % 0x100, v / 0x100_0000]
  {
    var v1, v2, v3 := v / 0x100, v / 0x1_0000, v / 0x100_0000;
    assert v1 / 0x100 == v2 && v2 / 0x100 == v3;
    assert ToBytes(v3, 1) == [v3];
    assert ToBytes(v2, 2) == [v2 % 0x100, v3];
    assert ToBytes(v1, 3) == [v1 % 0x100, v2 % 0x100, v3];
  }

  /** Shifting and masking picks the same digits. */
  lemma BytesByShift(v: u32)
    ensures And(Shr(v, 0), 0xff) == v % 0x100 && And(Shr(v, 8), 0xff) == v / 0x100 % 0x100
    ensures And(Shr(v, 16), 0xff) == v / 0x1_0000 % 0x100 && And(Shr(v, 24), 0xff) == v / 0x100_0000
  {
    hide And, Shr, Pow2;
    Pow2Values();
    Immediates.Extract(v, 0, 8, 1, 0x100);
    Immediates.Extract(v, 8, 8, 0x100, 0x100);
    Immediates.Extract(v, 16, 8, 0x1_0000, 0x100);
    Immediates.Extract(v, 24, 8, 0x100_0000, 0x100);
  }

  // ----- the laws -----

  predicate InRam(mem: seq<u8>, addr: u32, width: Width) {
    addr + width.Size() <= |mem|
  }

  lemma MasksAreResidues(v: u32)
    ensures And(v, 0xff) == v % 0x100 && And(v, 0xffff) == v % 0x1_0000
  {
    hide And, Pow2;
    Pow2Values();
    AndLowMask(v, 8);
    AndLowMask(v, 16);
  }

  /** In RAM an access of any width reads the little-endian composition of its bytes; outside it
      reads nothing from RAM. */
  lemma LoadReads(width: Width, mem: seq<u8>, ie: u32, host: Host, addr: u32, other: seq<u8>)
    requires RamSize(mem) && |other| == |mem|
    ensures InRam(mem, addr, width) ==>
              Load(width, mem, ie, host, addr) == Some(FromBytes(mem[addr..addr + width.Size()]))
    ensures !InRam(mem, addr, width) ==>
              Load(width, mem, ie, host, addr) == Load(width, other, ie, host, addr)
  {
    WordsAreLittleEndian(mem, addr);
  }

  /** In RAM a store replaces exactly its bytes; outside it leaves RAM alone, and only a word store
      to the controller changes the interrupt-enable word. */
  lemma StoreWrites(width: Width, mem: seq<u8>, ie: u32, host: Host, addr: u32, v: u32)
    requires RamSize(mem)
    ensures var m := Store(width, mem, ie, host, addr, v);
      && (InRam(mem, addr, width) ==> m == Some((Splice(mem, addr, v, width.Size()), ie)))
      && (!InRam(mem, addr, width) && m.Some? ==>
            m.value == (mem, if width == Word && addr == CONTROLLER then v else ie))
  {
    hide And, ToBytes;
    MasksAreResidues(v);
    PutsAreSplices(mem, addr, v);
    if width == Half {
      PutsAreSplices(mem, addr, v % 0x1_0000);
      TwoBytes(v);
    }
  }

  lemma TwoBytes(v: u32)
    ensures ToBytes(v % 0x1_0000, 2) == ToBytes(v, 2)
  {
    var l := v % 0x1_0000;
    LowDigits(v);
    TwoDigits(v);
    TwoDigits(l);
  }

  lemma TwoDigits(v: nat)
    ensures ToBytes(v, 2) == [v % 0x100, v / 0x100 % 0x100]
  {
    assert ToBytes(v / 0x100, 1) == [v / 0x100 % 0x100];
  }

  lemma LowDigits(v: u32)
    ensures v % 0x1_0000 % 0x100 == v % 0x100 && v % 0x1_0000 / 0x100 % 0x100 == v / 0x100 % 0x100
  {
  }

  /** Outside RAM a word load from 0x9000_0000 reads the interrupt-enable word, and every other load is the
      host's answer for that address. */
  lemma LoadOutside(mem: seq<u8>, ie: u32, host: Host, addr: u32)
    requires RamSize(mem)
    ensures addr + 1 > |mem| ==> Load(Byte, mem, ie, host, addr) == WidenedByte(host.load8(addr))
    ensures addr + 2 > |mem| ==> Load(Half, mem, ie, host, addr) == WidenedHalf(host.load16(addr))
    ensures addr + 4 > |mem| ==>
              Load(Word, mem, ie, host, addr) == if addr == 0x9000_0000 then Some(ie) else host.load32(addr)
  {
  }

  /** Narrow answers as register values. */
  function WidenedByte(v: Option<u8>): Option<u32> {
    match v case Some(x) => Some(x) case None => None
  }

  function WidenedHalf(v: Option<u16>): Option<u32> {
    match v case Some(x) => Some(x) case None => None
  }

  /** Outside RAM a word store to 0x9000_0000 always succeeds and sets the interrupt-enable word; every other
      store succeeds exactly if the host takes that address and the low bytes of the value, and then
      changes nothing here. */
  lemma StoreOutside(mem: seq<u8>, ie: u32, host: Host, addr: u32, v: u32)
    requires RamSize(mem)
    ensures addr + 1 > |mem| ==>
              Store(Byte, mem, ie, host, addr, v) == if host.store8(addr, v % 0x100) then Some((mem, ie)) else None
    ensures addr + 2 > |mem| ==>
              Store(Half, mem, ie, host, addr, v) == if host.store16(addr, v % 0x1_0000) then Some((mem, ie)) else None
    ensures addr + 4 > |mem| ==>
              Store(Word, mem, ie, host, addr, v)
                == if addr == 0x9000_0000 then Some((mem, v))
                   else if host.store32(addr, v) then Some((mem, ie)) else None
  {
    hide And;
    MasksAreResidues(v);
  }

  /** A load after a store: the same access gives back the value, a disjoint one what it gave before. */
  lemma LoadAfterStore(w1: Width, a: u32, v: u32, w2: Width, b: u32, mem: seq<u8>, ie: u32, host: Host)
    requires RamSize(mem) && InRam(mem, a, w1) && InRam(mem, b, w2)
    ensures Store(w1, mem, ie, host, a, v).Some?
    ensures var mem' := Store(w1, mem, ie, host, a, v).value.0;
      && (w1 == w2 && a == b ==> Load(w2, mem', ie, host, b) == Some(v % Pow2(8 * w1.Size())))
      && (a + w1.Size() <= b || b + w2.Size() <= a ==>
            Load(w2, mem', ie, host, b) == Load(w2, mem, ie, host, b))
  {
    hide Load, Store, FromBytes, ToBytes, Splice;
    StoreWrites(w1, mem, ie, host, a, v);
    var mem' := Store(w1, mem, ie, host, a, v).value.0;
    LoadReads(w2, mem, ie, host, b, mem);
    LoadReads(w2, mem', ie, host, b, mem');
    ValueRoundTrip(v, w1.Size());
    SpliceSlices(mem, a, v, w1.Size(), b, w2.Size());
  }

  lemma SpliceSlices(mem: seq<u8>, a: nat, v: nat, n: nat, b: nat, m: nat)
    requires a + n <= |mem| && b + m <= |mem|
    ensures Splice(mem, a, v, n)[a..a + n] == ToBytes(v, n)
    ensures a + n <= b || b + m <= a ==> Splice(mem, a, v, n)[b..b + m] == mem[b..b + m]
  {
    hide ToBytes;
  }
}
