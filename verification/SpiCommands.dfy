/** The driver's command sequences: write enable, status, addressing, read, page program and erase. */
module SpiCommands {
  import opened Bytes
  import opened NorMemory
  import opened SpiDevice
  import opened SpiPins
  import opened SpiDriver

  const FOUR_BYTE_LIMIT: nat := 0x100_0000
  const PAGE: nat := 0x100
  const SUBSECTOR: nat := 0x1000
  const SECTOR: nat := 0x1_0000

  // ---------------------------------------------------------------- the device between and inside commands

  /** Deselected, with nothing half done on the bus. */
  predicate Quiet(d: Dev) {
    !d.selected && !d.clk && d.phase == Command && d.width == One && d.nbits == 0 && d.acc == 0
  }

  /** The same device in the middle of a command. */
  function Active(d: Dev, p: Phase, w: Width): Dev { d.(selected := true, phase := p, width := w) }

  function Settled(p: Phase): Phase { if p.Out? && p.group < 0 then Out(p.src, 0) else p }

  lemma SentCommand(d: Dev, cmd: Byte, p: Phase, w: Width)
    requires Quiet(d) && Decode(Large(d), d.busy > 0, cmd) == (p, w)
    ensures Listens(d, One) && Sent(d, cmd) == Active(d, Settled(p), w)
  {
  }

  lemma SentInside(d: Dev, p: Phase, w: Width, b: Byte, q: Phase)
    requires Quiet(d) && Input(p) && p != Command && NextPhase(Large(d), d.busy > 0, d.dummies, w, p, b) == (q, w)
    ensures Listens(Active(d, p, w), w) && Sent(Active(d, p, w), b) == Active(d, Settled(q), w)
  {
  }

  method Deselect(fl: SpiFlash)
    modifies fl
    ensures fl.dev == OnWrite(old(fl.dev), CS_N)
  {
    fl.RegWrite(CS_N);
  }

  // ---------------------------------------------------------------- write enable and status

  method WriteEnable(fl: SpiFlash)
    requires Quiet(fl.dev) && fl.dev.busy == 0
    modifies fl
    ensures fl.dev == old(fl.dev).(wel := !old(fl.dev).locked)
  {
    SentCommand(fl.dev, 0x06, EnableArmed, One);
    fl.WriteByte(0x06, Str);
    Deselect(fl);
  }

  method ReadStatus(fl: SpiFlash) returns (val: Byte)
    requires Quiet(fl.dev)
    modifies fl
    ensures val == StatusByte(old(fl.dev))
    ensures fl.dev == old(fl.dev).(busy := if old(fl.dev).busy > 0 then old(fl.dev).busy - 1 else 0)
  {
    SentCommand(fl.dev, 0x05, Out(Status, -1), One);
    fl.WriteByte(0x05, Str);
    val := fl.ReadByte(Str);
    Deselect(fl);
  }

  lemma StatusBits(d: Dev)
    ensures StatusByte(d) & 0x02 != 0 <==> d.wel
    ensures StatusByte(d) & 0x01 != 0 <==> d.busy > 0
  {
  }

  /** Poll until the device reports that the operation is complete. */
  method WaitReady(fl: SpiFlash)
    requires Quiet(fl.dev)
    modifies fl
    ensures fl.dev == old(fl.dev).(busy := 0)
  {
    StatusBits(fl.dev);
    var s := ReadStatus(fl);
    while s & 0x01 != 0
      invariant Quiet(fl.dev) && fl.dev == old(fl.dev).(busy := fl.dev.busy)
      invariant s & 0x01 == 0 ==> fl.dev.busy == 0
      decreases fl.dev.busy, s & 0x01 != 0
    {
      StatusBits(fl.dev);
      s := ReadStatus(fl);
    }
  }

  /** Enable writing and check that the device agrees. */
  method EnableWriting(fl: SpiFlash) returns (ok: bool)
    requires Quiet(fl.dev) && fl.dev.busy == 0
    modifies fl
    ensures ok <==> !old(fl.dev).locked
    ensures fl.dev == old(fl.dev).(wel := ok)
  {
    WriteEnable(fl);
    StatusBits(fl.dev);
    var s := ReadStatus(fl);
    ok := s & 0x02 != 0;
  }

  // ---------------------------------------------------------------- addresses

  lemma ValueSnoc(bs: seq<Byte>, b: Byte)
    ensures Value(bs + [b]) == Value(bs) * 256 + FromByte(b)
  {
    assert (bs + [b])[..|bs|] == bs;
  }

  lemma ValueOf3(x: Byte, y: Byte, z: Byte)
    ensures Value([x, y, z]) == (FromByte(x) * 256 + FromByte(y)) * 256 + FromByte(z)
  {
    assert [] + [x] == [x] && [x] + [y] == [x, y] && [x, y] + [z] == [x, y, z];
    ValueSnoc([], x);
    ValueSnoc([x], y);
    ValueSnoc([x, y], z);
  }

  lemma ValueOf4(w: Byte, x: Byte, y: Byte, z: Byte)
    ensures Value([w, x, y, z]) == ((FromByte(w) * 256 + FromByte(x)) * 256 + FromByte(y)) * 256 + FromByte(z)
  {
    assert [w, x, y] + [z] == [w, x, y, z];
    ValueSnoc([w, x, y], z);
    ValueOf3(w, x, y);
  }

  lemma Assemble(w: nat, x: nat, y: nat, z: nat)
    requires w < 256 && x < 256 && y < 256 && z < 256
    ensures Value([ToByte(x), ToByte(y), ToByte(z)]) == (x * 256 + y) * 256 + z
    ensures Value([ToByte(w), ToByte(x), ToByte(y), ToByte(z)]) == ((w * 256 + x) * 256 + y) * 256 + z
  {
    ValueOf3(ToByte(x), ToByte(y), ToByte(z));
    ValueOf4(ToByte(w), ToByte(x), ToByte(y), ToByte(z));
    FromTo(w);
    FromTo(x);
    FromTo(y);
    FromTo(z);
  }

  lemma DigitsOf(a: nat)
    requires a < 0x1_0000_0000
    ensures ((a / 0x100_0000 % 256 * 256 + a / 0x1_0000 % 256) * 256 + a / 0x100 % 256) * 256 + a % 256 == a
    ensures a < FOUR_BYTE_LIMIT ==> (a / 0x1_0000 % 256 * 256 + a / 0x100 % 256) * 256 + a % 256 == a
  {
    var p, q, r := a / 0x100, a / 0x1_0000, a / 0x100_0000;
    NextDigit(a, a, 1, p);
    NextDigit(a, p, 0x100, q);
    NextDigit(a, q, 0x1_0000, r);
    assert r < 256 && (a < FOUR_BYTE_LIMIT ==> r == 0);
  }

  lemma NextDigit(a: nat, x: nat, m: nat, y: nat)
    requires (m == 1 || m == 0x100 || m == 0x1_0000) && x == a / m && y == a / (256 * m)
    ensures x == y * 256 + x % 256
  {
    if m == 1 {
    } else if m == 0x100 {
      assert y == a / 0x1_0000;
    } else {
      assert y == a / 0x100_0000;
    }
  }

  /** The bytes of an address, most significant first. */
  method AddressBytes(addr: nat) returns (b3: Byte, b2: Byte, b1: Byte, b0: Byte)
    requires addr < 0x1_0000_0000
    ensures Value([b3, b2, b1, b0]) == addr
    ensures addr < FOUR_BYTE_LIMIT ==> Value([b2, b1, b0]) == addr
  {
    DigitsOf(addr);
    var w, x, y, z := addr / 0x100_0000 % 256, addr / 0x1_0000 % 256, addr / 0x100 % 256, addr % 256;
    Assemble(w, x, y, z);
    b3, b2, b1, b0 := ToByte(w), ToByte(x), ToByte(y), ToByte(z);
  }

  method WriteAddrByte(fl: SpiFlash, b: Byte, protocol: Protocol, ghost d: Dev, ghost kind: Kind, ghost need: nat,
                       ghost got: seq<Byte>)
    requires !Double(protocol) && Quiet(d) && fl.dev == Active(d, Address(kind, need, got), WidthOf(protocol))
    modifies fl
    ensures need > 1 ==> fl.dev == Active(d, Address(kind, need - 1, got + [b]), WidthOf(protocol))
    ensures need == 1 ==> fl.dev == Active(d, Settled(Addressed(WidthOf(protocol), d.dummies, kind, Value(got + [b]))),
              WidthOf(protocol))
  {
    ghost var q := NextPhase(Large(d), d.busy > 0, d.dummies, WidthOf(protocol), Address(kind, need, got), b).0;
    SentInside(d, Address(kind, need, got), WidthOf(protocol), b, q);
    fl.WriteByte(b, protocol);
  }

  method WriteAddr(fl: SpiFlash, addr: nat, protocol: Protocol, ghost d: Dev, ghost kind: Kind)
    requires !Double(protocol) && Quiet(d) && fl.dev == Active(d, Address(kind, 3, []), WidthOf(protocol))
    requires addr < FOUR_BYTE_LIMIT
    modifies fl
    ensures fl.dev == Active(d, Settled(Addressed(WidthOf(protocol), d.dummies, kind, addr)), WidthOf(protocol))
  {
    var b3, b2, b1, b0 := AddressBytes(addr);
    SendThree(fl, b2, b1, b0, protocol, d, kind);
  }

  method SendThree(fl: SpiFlash, b2: Byte, b1: Byte, b0: Byte, protocol: Protocol, ghost d: Dev, ghost kind: Kind)
    requires !Double(protocol) && Quiet(d) && fl.dev == Active(d, Address(kind, 3, []), WidthOf(protocol))
    modifies fl
    ensures fl.dev == Active(d, Settled(Addressed(WidthOf(protocol), d.dummies, kind, Value([b2, b1, b0]))),
              WidthOf(protocol))
  {
    assert [] + [b2] == [b2] && [b2] + [b1] == [b2, b1] && [b2, b1] + [b0] == [b2, b1, b0];
    WriteAddrByte(fl, b2, protocol, d, kind, 3, []);
    WriteAddrByte(fl, b1, protocol, d, kind, 2, [b2]);
    WriteAddrByte(fl, b0, protocol, d, kind, 1, [b2, b1]);
  }

  method WriteAddr4b(fl: SpiFlash, addr: nat, protocol: Protocol, ghost d: Dev, ghost kind: Kind)
    requires !Double(protocol) && Quiet(d) && fl.dev == Active(d, Address(kind, 4, []), WidthOf(protocol))
    requires addr < 0x1_0000_0000
    modifies fl
    ensures fl.dev == Active(d, Settled(Addressed(WidthOf(protocol), d.dummies, kind, addr)), WidthOf(protocol))
  {
    var b3, b2, b1, b0 := AddressBytes(addr);
    SendFour(fl, b3, b2, b1, b0, protocol, d, kind);
  }

  method SendFour(fl: SpiFlash, b3: Byte, b2: Byte, b1: Byte, b0: Byte, protocol: Protocol, ghost d: Dev,
                  ghost kind: Kind)
    requires !Double(protocol) && Quiet(d) && fl.dev == Active(d, Address(kind, 4, []), WidthOf(protocol))
    modifies fl
    ensures fl.dev == Active(d, Settled(Addressed(WidthOf(protocol), d.dummies, kind, Value([b3, b2, b1, b0]))),
              WidthOf(protocol))
  {
    assert [] + [b3] == [b3] && [b3] + [b2] == [b3, b2] && [b3, b2] + [b1] == [b3, b2, b1];
    assert [b3, b2, b1] + [b0] == [b3, b2, b1, b0];
    WriteAddrByte(fl, b3, protocol, d, kind, 4, []);
    WriteAddrByte(fl, b2, protocol, d, kind, 3, [b3]);
    WriteAddrByte(fl, b1, protocol, d, kind, 2, [b3, b2]);
    WriteAddrByte(fl, b0, protocol, d, kind, 1, [b3, b2, b1]);
  }

  /** A command with an address: the four-byte form exactly on devices above 16 MiB. */
  method SendAddressed(fl: SpiFlash, cmd: Byte, cmd4b: Byte, addr: nat, protocol: Protocol, ghost kind: Kind)
    requires !Double(protocol) && Quiet(fl.dev) && fl.dev.busy == 0
    requires Decode(false, false, cmd) == (Address(kind, 3, []), WidthOf(protocol))
    requires Decode(true, false, cmd4b) == (Address(kind, 4, []), WidthOf(protocol))
    requires addr < fl.size <= 0x1_0000_0000 && fl.size == |fl.dev.mem|
    modifies fl
    ensures fl.dev == Active(old(fl.dev), Settled(Addressed(WidthOf(protocol), old(fl.dev).dummies, kind, addr)),
              WidthOf(protocol))
  {
    if fl.size > FOUR_BYTE_LIMIT {
      SentCommand(fl.dev, cmd4b, Address(kind, 4, []), WidthOf(protocol));
      fl.WriteByte(cmd4b, Str);
      WriteAddr4b(fl, addr, protocol, old(fl.dev), kind);
    } else {
      SentCommand(fl.dev, cmd, Address(kind, 3, []), WidthOf(protocol));
      fl.WriteByte(cmd, Str);
      WriteAddr(fl, addr, protocol, old(fl.dev), kind);
    }
  }

  // ---------------------------------------------------------------- read

  /** What the driver relies on between calls. */
  ghost predicate Valid(fl: SpiFlash)
    reads fl
  {
    && fl.size == |fl.dev.mem| <= 0x1_0000_0000
    && Quiet(fl.dev) && fl.dev.busy == 0
    && (fl.dataWidth == 4 ==> fl.readDummyCycles == fl.dev.dummies)
  }

  method DummyCycles(fl: SpiFlash, n: nat, ghost d: Dev, ghost a: nat, ghost w: Width)
    requires Quiet(d) && n == d.dummies && w != One
    requires fl.dev == Active(d, Settled(Addressed(w, d.dummies, Fetching, a)), w)
    modifies fl
    ensures fl.dev == Active(d, Out(Array(a), 0), w)
  {
    for i := 0 to n
      invariant fl.dev == Active(d, if i < n then Dummy(a, n - i) else Out(Array(a), 0), w)
    {
      fl.RegWrite(CLOCK);
      fl.RegWrite(LOW);
    }
  }

  lemma Fetched(d: Dev, a: nat, w: Width)
    requires Quiet(d) && a < |d.mem|
    ensures var e := Active(d, Out(Array(a), 0), w);
            OutByte(e, Array(a)) == d.mem[a] && NextOut(e, Array(a)) == Active(d, Out(Array(a + 1), 0), w)
                && Answers(e, w)
  {
  }

  method ReadBytes(fl: SpiFlash, len: nat, protocol: Protocol, ghost d: Dev, ghost addr: nat) returns (dest: seq<Byte>)
    requires Quiet(d) && !Double(protocol) && addr + len <= |d.mem|
    requires fl.dev == Active(d, Out(Array(addr), 0), WidthOf(protocol))
    modifies fl
    ensures dest == d.mem[addr..addr + len]
    ensures fl.dev == Active(d, Out(Array(addr + len), 0), WidthOf(protocol))
  {
    dest := [];
    while |dest| < len
      invariant |dest| <= len && dest == d.mem[addr..addr + |dest|]
      invariant fl.dev == Active(d, Out(Array(addr + |dest|), 0), WidthOf(protocol))
    {
      Fetched(d, addr + |dest|, WidthOf(protocol));
      var b := fl.ReadByte(protocol);
      dest := dest + [b];
    }
  }

  /** Send the read command: the device then answers on as many lines as the driver has, four or one. */
  method OpenArray(fl: SpiFlash, addr: nat) returns (protocol: Protocol)
    requires Valid(fl) && addr < fl.size
    modifies fl
    ensures !Double(protocol) && WidthOf(protocol) == (if fl.dataWidth == 4 then Four else One)
    ensures fl.dev == Active(old(fl.dev), Out(Array(addr), 0), if fl.dataWidth == 4 then Four else One)
  {
    protocol := Str;
    if fl.dataWidth == 4 {
      protocol := QuadStr;
    }
    if protocol == QuadStr {
      SendAddressed(fl, 0xEB, 0xEC, addr, protocol, Fetching);
      DummyCycles(fl, fl.readDummyCycles, old(fl.dev), addr, Four);
    } else {
      SendAddressed(fl, 0x03, 0x13, addr, protocol, Fetching);
    }
  }

  /** spi_flash_read: exactly the bytes of memory, in order; the device is left as it was. */
  method Read(fl: SpiFlash, addr: nat, len: nat) returns (ret: int, dest: seq<Byte>)
    requires Valid(fl) && addr + len <= fl.size && addr < fl.size
    modifies fl
    ensures ret == 0 && dest == old(fl.dev.mem)[addr..addr + len] && fl.dev == old(fl.dev)
  {
    ghost var d := fl.dev;
    var protocol := OpenArray(fl, addr);
    dest := ReadBytes(fl, len, protocol, d, addr);
    Deselect(fl);
    ret := 0;
  }

  // ---------------------------------------------------------------- page program

  /** The page buffer after the bytes of d have been latched from offset off on. */
  function Latched(off: nat, d: seq<Byte>): (m: map<nat, Byte>)
    ensures forall i: nat :: i in m <==> off <= i < off + |d|
    ensures forall i: nat | i in m :: m[i] == d[i - off]
  {
    if d == [] then map[] else Latched(off, d[..|d| - 1])[off + |d| - 1 := d[|d| - 1]]
  }

  lemma LatchOne(off: nat, d: seq<Byte>, b: Byte)
    ensures Latched(off, d)[off + |d| := b] == Latched(off, d + [b])
  {
    assert (d + [b])[..|d|] == d;
  }

  /** Data that stay inside one page go where they were meant to go. */
  lemma PageIsRange(m: seq<Byte>, addr: nat, d: seq<Byte>)
    requires addr % PAGE + |d| <= PAGE
    ensures PageProgrammed(m, addr / PAGE, Latched(addr % PAGE, d)) == Programmed(m, addr, d)
  {
    var l, r := PageProgrammed(m, addr / PAGE, Latched(addr % PAGE, d)), Programmed(m, addr, d);
    forall i | 0 <= i < |m|
      ensures l[i] == r[i]
    {
      assert i == i / PAGE * PAGE + i % PAGE && addr == addr / PAGE * PAGE + addr % PAGE;
    }
  }

  /** The offset in the page after the last one wraps round. */
  function Wrapped(x: nat): nat { if x == PAGE then 0 else x }

  lemma WrappedIsMod(x: nat)
    requires x <= PAGE
    ensures Wrapped(x) == x % PAGE
  {
  }

  method LatchByte(fl: SpiFlash, b: Byte, protocol: Protocol, ghost d: Dev, ghost page: nat, ghost off: nat,
                   ghost done: seq<Byte>)
    requires Quiet(d) && !Double(protocol) && off + |done| < PAGE
    requires fl.dev == Active(d, PageData(page, off + |done|, Latched(off, done)), WidthOf(protocol))
    modifies fl
    ensures fl.dev == Active(d, PageData(page, Wrapped(off + |done| + 1), Latched(off, done + [b])), WidthOf(protocol))
  {
    LatchOne(off, done, b);
    WrappedIsMod(off + |done| + 1);
    SentInside(d, PageData(page, off + |done|, Latched(off, done)), WidthOf(protocol), b,
               PageData(page, (off + |done| + 1) % PAGE, Latched(off, done + [b])));
    fl.WriteByte(b, protocol);
  }

  lemma PageEnd(addr: nat, n: nat)
    requires 0 < n && addr % PAGE + n <= PAGE
    ensures (addr + n) % PAGE == 0 <==> addr % PAGE + n == PAGE
  {
  }

  /** The inner loop: send bytes until the data or the page ends. */
  method SendPage(fl: SpiFlash, addr: nat, src: seq<Byte>, protocol: Protocol, ghost d: Dev) returns (n: nat)
    requires Quiet(d) && !Double(protocol) && src != []
    requires fl.dev == Active(d, PageData(addr / PAGE, addr % PAGE, map[]), WidthOf(protocol))
    modifies fl
    ensures 0 < n <= |src| && addr % PAGE + n <= PAGE && (n == |src| || (addr + n) % PAGE == 0)
    ensures fl.dev == Active(d, PageData(addr / PAGE, Wrapped(addr % PAGE + n), Latched(addr % PAGE, src[..n])),
              WidthOf(protocol))
  {
    n := 0;
    ghost var off, page := addr % PAGE, addr / PAGE;
    while n < |src|
      invariant n <= |src| && off + n < PAGE
      invariant fl.dev == Active(d, PageData(page, off + n, Latched(off, src[..n])), WidthOf(protocol))
    {
      assert src[..n] + [src[n]] == src[..n + 1];
      LatchByte(fl, src[n], protocol, d, page, off, src[..n]);
      n := n + 1;
      PageEnd(addr, n);
      if (addr + n) % PAGE == 0 {
        break;
      }
    }
  }

  /** One round of the outer loop: enable writing, program up to the end of the page, wait. */
  method ProgramChunk(fl: SpiFlash, addr: nat, src: seq<Byte>) returns (ok: bool, n: nat)
    requires Valid(fl) && src != [] && addr + |src| <= fl.size
    modifies fl
    ensures ok <==> !old(fl.dev).locked
    ensures Valid(fl)
    ensures !ok ==> fl.dev == old(fl.dev).(wel := false)
    ensures ok ==> 0 < n <= |src| && (n == |src| || (addr + n) % PAGE == 0)
    ensures ok ==> fl.dev == old(fl.dev).(wel := false, mem := Programmed(old(fl.dev).mem, addr, src[..n]))
  {
    n := 0;
    ok := EnableWriting(fl);
    if ok {
      n := ProgramPage(fl, addr, src);
    }
  }

  /** Send the program command and the page, let the device carry it out, and wait. */
  method ProgramPage(fl: SpiFlash, addr: nat, src: seq<Byte>) returns (n: nat)
    requires Valid(fl) && fl.dev.wel && src != [] && addr + |src| <= fl.size
    modifies fl
    ensures 0 < n <= |src| && (n == |src| || (addr + n) % PAGE == 0)
    ensures fl.dev == old(fl.dev).(wel := false, mem := Programmed(old(fl.dev).mem, addr, src[..n]))
  {
    ghost var d := fl.dev;
    var protocol := OpenPage(fl, addr);
    n := SendPage(fl, addr, src, protocol, d);
    PageIsRange(d.mem, addr, src[..n]);
    CommitPage(fl, d, addr / PAGE, (addr % PAGE + n) % PAGE, Latched(addr % PAGE, src[..n]), WidthOf(protocol));
  }

  /** Send the program command: the device then takes data on as many lines as the driver has. */
  method OpenPage(fl: SpiFlash, addr: nat) returns (protocol: Protocol)
    requires Valid(fl) && addr < fl.size
    modifies fl
    ensures !Double(protocol) && WidthOf(protocol) == (if fl.dataWidth == 4 then Four else One)
    ensures fl.dev == Active(old(fl.dev), PageData(addr / PAGE, addr % PAGE, map[]),
                             if fl.dataWidth == 4 then Four else One)
  {
    protocol := Str;
    if fl.dataWidth == 4 {
      protocol := QuadStr;
    }
    if protocol == QuadStr {
      SendAddressed(fl, 0x38, 0x3E, addr, protocol, Programming);
    } else {
      SendAddressed(fl, 0x02, 0x12, addr, protocol, Programming);
    }
  }

  /** Deselecting a device that is enabled for writing programs what it has latched. */
  method CommitPage(fl: SpiFlash, ghost d: Dev, ghost page: nat, ghost off: nat, ghost buf: map<nat, Byte>,
                    ghost w: Width)
    requires Quiet(d) && d.busy == 0 && d.wel && fl.dev == Active(d, PageData(page, off, buf), w)
    modifies fl
    ensures fl.dev == d.(wel := false, mem := PageProgrammed(d.mem, page, buf))
  {
    Deselect(fl);
    WaitReady(fl);
  }

  /** spi_flash_write: every byte of src is ANDed into its own place, whatever the page boundaries, and
      nothing else changes; it fails exactly when writing cannot be enabled, and then changes nothing. */
  method Write(fl: SpiFlash, addr: nat, src: seq<Byte>) returns (ret: int)
    requires Valid(fl) && addr + |src| <= fl.size
    modifies fl
    ensures Valid(fl)
    ensures ret == 0 || ret == -1
    ensures ret == 0 <==> src == [] || !old(fl.dev).locked
    ensures fl.dev == old(fl.dev).(wel := fl.dev.wel, mem := fl.dev.mem)
    ensures fl.dev.mem == if ret == 0 then Programmed(old(fl.dev).mem, addr, src) else old(fl.dev).mem
  {
    var k := 0;
    ghost var d, m := fl.dev, fl.dev.mem;
    NothingWritten(m, addr, src);
    while k < |src|
      invariant Valid(fl) && k <= |src| && (k > 0 ==> !d.locked)
      invariant m == Programmed(d.mem, addr, src[..k])
      invariant fl.dev == d.(wel := fl.dev.wel, mem := m)
    {
      var ok, n := ProgramChunk(fl, addr + k, src[k..]);
      if !ok {
        return -1;
      }
      WriteStep(d.mem, addr, src, k, n);
      m := fl.dev.mem;
      k := k + n;
    }
    assert src[..k] == src;
    return 0;
  }

  lemma NothingWritten(m: seq<Byte>, addr: nat, src: seq<Byte>)
    ensures Programmed(m, addr, src[..0]) == m
  {
    ProgrammedNothing(m, addr);
  }

  lemma WriteStep(m: seq<Byte>, addr: nat, src: seq<Byte>, k: nat, n: nat)
    requires k + n <= |src|
    ensures Programmed(Programmed(m, addr, src[..k]), addr + k, src[k..][..n]) == Programmed(m, addr, src[..k + n])
  {
    ProgrammedTwice(m, addr, src[..k], src[k..][..n]);
    assert src[..k] + src[k..][..n] == src[..k + n];
  }

  // ---------------------------------------------------------------- erase

  /** The blocks erased for a request, as (address, size): the largest block that is aligned and fits. */
  function Tiles(addr: nat, len: nat): seq<(nat, nat)>
    decreases len
  {
    if len >= SECTOR && addr % SECTOR == 0 then [(addr, SECTOR)] + Tiles(addr + SECTOR, len - SECTOR)
    else if len >= SUBSECTOR && addr % SUBSECTOR == 0
          then [(addr, SUBSECTOR)] + Tiles(addr + SUBSECTOR, len - SUBSECTOR)
    else []
  }

  /** How much of a request is erased before the loop ends or gives up. */
  function Erasable(addr: nat, len: nat): nat { if addr % SUBSECTOR == 0 then len - len % SUBSECTOR else 0 }

  /** The largest block that is aligned and fits into what is left: 64 KiB, or else 4 KiB. */
  predicate IsLargest(t: (nat, nat), left: nat) {
    if t.0 % 0x1_0000 == 0 && left >= 0x1_0000 then t.1 == 0x1_0000 else t.1 == 0x1000 && t.0 % 0x1000 == 0
  }

  /** Self-aligned blocks that follow each other and cover exactly [addr, addr + len), each as large as possible. */
  predicate Tiling(ts: seq<(nat, nat)>, addr: nat, len: nat) {
    if ts == [] then len == 0
    else IsLargest(ts[0], len) && ts[0].0 == addr && ts[0].1 <= len && Tiling(ts[1..], addr + ts[0].1, len - ts[0].1)
  }

  lemma ErasableStep(addr: nat, len: nat, size: nat)
    requires (size == SECTOR || size == SUBSECTOR) && addr % SUBSECTOR == 0 && len >= size
    ensures Erasable(addr, len) == size + Erasable(addr + size, len - size)
    ensures (addr + size) % SUBSECTOR == 0 && (len - size) % SUBSECTOR == len % SUBSECTOR
  {
  }

  lemma SectorIsSubsector(addr: nat)
    requires addr % SECTOR == 0
    ensures addr % SUBSECTOR == 0
  {
  }

  /** The erased blocks are self-aligned, disjoint, as large as possible, and cover exactly the erasable part of the
      request. */
  lemma {:induction false} TilesTile(addr: nat, len: nat)
    ensures Tiling(Tiles(addr, len), addr, Erasable(addr, len))
    decreases len
  {
    if len >= SECTOR && addr % SECTOR == 0 {
      SectorIsSubsector(addr);
      TileStep(addr, len, SECTOR);
    } else if len >= SUBSECTOR && addr % SUBSECTOR == 0 {
      TileStep(addr, len, SUBSECTOR);
    } else {
      assert Tiles(addr, len) == [];
    }
  }

  lemma {:induction false} TileStep(addr: nat, len: nat, size: nat)
    requires addr % SUBSECTOR == 0 && IsLargest((addr, size), len) && len >= size
    requires Tiles(addr, len) == [(addr, size)] + Tiles(addr + size, len - size)
    ensures Tiling(Tiles(addr, len), addr, Erasable(addr, len))
    decreases len, 0
  {
    ErasableStep(addr, len, size);
    TilesTile(addr + size, len - size);
    assert Tiles(addr, len)[1..] == Tiles(addr + size, len - size);
  }

  /** Erase one block: enable writing, send the command, wait. */
  method EraseBlock(fl: SpiFlash, addr: nat, size: nat) returns (ok: bool)
    requires Valid(fl) && (size == SECTOR || size == SUBSECTOR) && addr % size == 0 && addr < fl.size
    modifies fl
    ensures Valid(fl)
    ensures ok <==> !old(fl.dev).locked
    ensures !ok ==> fl.dev == old(fl.dev).(wel := false)
    ensures ok ==> fl.dev == old(fl.dev).(wel := false, mem := Erased(old(fl.dev).mem, addr, size),
                                          eraseLog := old(fl.dev).eraseLog + [(addr, size)])
  {
    ok := EnableWriting(fl);
    if ok {
      ghost var d := fl.dev;
      if size == SECTOR {
        SendAddressed(fl, 0xD8, 0xDC, addr, Str, Erasing(SECTOR));
      } else {
        SendAddressed(fl, 0x20, 0x21, addr, Str, Erasing(SUBSECTOR));
      }
      CommitErase(fl, d, addr, size);
    }
  }

  /** Deselecting a device that is enabled for writing erases the block. */
  method CommitErase(fl: SpiFlash, ghost d: Dev, ghost addr: nat, ghost size: nat)
    requires Quiet(d) && d.busy == 0 && d.wel && size > 0 && addr % size == 0
             && fl.dev == Active(d, EraseArmed(addr, size), One)
    modifies fl
    ensures fl.dev == d.(wel := false, mem := Erased(d.mem, addr, size), eraseLog := d.eraseLog + [(addr, size)])
  {
    Deselect(fl);
    WaitReady(fl);
  }

  /** Which blocks to erase next; 0 for a request that is not block-aligned. */
  function BlockSize(addr: nat, len: nat): nat {
    if addr % SECTOR == 0 && len >= SECTOR then SECTOR
    else if addr % SUBSECTOR == 0 && len >= SUBSECTOR then SUBSECTOR
    else 0
  }

  lemma BlockFacts(addr: nat, len: nat)
    requires len > 0
    ensures var size := BlockSize(addr, len);
            if size == 0 then
              Erasable(addr, len) == 0 && Tiles(addr, len) == [] && (addr % SUBSECTOR != 0 || len % SUBSECTOR != 0)
            else
              && addr % SUBSECTOR == 0 && addr % size == 0
              && (addr + size) % SUBSECTOR == 0 && (len - size) % SUBSECTOR == len % SUBSECTOR
              && Erasable(addr, len) == size + Erasable(addr + size, len - size)
              && Tiles(addr, len) == [(addr, size)] + Tiles(addr + size, len - size)
  {
    var size := BlockSize(addr, len);
    if size == SECTOR {
      SectorIsSubsector(addr);
      ErasableStep(addr, len, SECTOR);
    } else if size == SUBSECTOR {
      ErasableStep(addr, len, SUBSECTOR);
    }
  }

  /** The blocks of a request and their total length.  The name keeps their recursion out of the proof of the loop. */
  datatype Plan = Plan(tiles: seq<(nat, nat)>, extent: nat)

  ghost function PlanOf(a: nat, n: nat): Plan { Plan(Tiles(a, n), Erasable(a, n)) }

  /** Of the request (addr, len) on device d, the part before a has been erased and (a, n) is left. */
  ghost predicate Progress(d: Dev, e: Dev, addr: nat, len: nat, a: nat, n: nat) {
    && addr <= a && a + n == addr + len
    && e == d.(wel := e.wel, mem := Erased(d.mem, addr, a - addr), eraseLog := e.eraseLog)
    && e.eraseLog + PlanOf(a, n).tiles == d.eraseLog + PlanOf(addr, len).tiles
    && a - addr + PlanOf(a, n).extent == PlanOf(addr, len).extent
    && n % SUBSECTOR == len % SUBSECTOR
    && (a > addr ==> !d.locked && addr % SUBSECTOR == 0 && a % SUBSECTOR == 0)
  }

  lemma ProgressStarts(d: Dev, addr: nat, len: nat)
    ensures Progress(d, d, addr, len, addr, len)
  {
    ErasedNothing(d.mem, addr);
  }

  lemma ProgressStep(d: Dev, e: Dev, addr: nat, len: nat, a: nat, n: nat, size: nat)
    requires Progress(d, e, addr, len, a, n) && n > 0 && size == BlockSize(a, n) && size > 0 && !d.locked
    ensures Progress(d, e.(wel := false, mem := Erased(e.mem, a, size), eraseLog := e.eraseLog + [(a, size)]),
                     addr, len, a + size, n - size)
  {
    BlockFacts(a, n);
    ErasedTwice(d.mem, addr, a - addr, size);
    assert e.eraseLog + [(a, size)] + Tiles(a + size, n - size) == e.eraseLog
             + ([(a, size)] + Tiles(a + size, n - size));
  }

  /** Nothing left, or nothing that can be erased: what has been done is the erasable part of the request. */
  lemma ProgressEnds(d: Dev, e: Dev, addr: nat, len: nat, a: nat, n: nat)
    requires Progress(d, e, addr, len, a, n) && (n == 0 || BlockSize(a, n) == 0)
    ensures e.mem == Erased(d.mem, addr, Erasable(addr, len)) && e.eraseLog == d.eraseLog + Tiles(addr, len)
    ensures n == 0 <==> len == 0 || (addr % SUBSECTOR == 0 && len % SUBSECTOR == 0)
  {
    if n > 0 {
      BlockFacts(a, n);
    }
    assert Tiles(a, n) == [];
    assert e.eraseLog + [] == e.eraseLog;
  }

  /** How an erase ends. */
  ghost predicate EraseEnded(ret: int, e: Dev, d: Dev, addr: nat, len: nat) {
    && e == d.(wel := e.wel, mem := e.mem, eraseLog := e.eraseLog)
    && (ret == 0 <==> len == 0 || (!d.locked && addr % SUBSECTOR == 0 && len % SUBSECTOR == 0))
    && (d.locked ==> e.mem == d.mem && e.eraseLog == d.eraseLog)
    && (!d.locked ==> e.mem == Erased(d.mem, addr, Erasable(addr, len)) && e.eraseLog == d.eraseLog + Tiles(addr, len))
  }

  lemma EraseDone(d: Dev, e: Dev, addr: nat, len: nat, a: nat)
    requires Progress(d, e, addr, len, a, 0) && (d.locked ==> e.mem == d.mem && e.eraseLog == d.eraseLog)
    ensures EraseEnded(0, e, d, addr, len)
  {
    ProgressEnds(d, e, addr, len, a, 0);
  }

  /** One round of the loop of spi_flash_erase: the next block, unless the rest is not made of blocks. */
  method EraseNext(fl: SpiFlash, ghost d: Dev, ghost addr: nat, ghost len: nat, a: nat, n: nat)
    returns (ret: int, size: nat)
    requires Valid(fl) && 0 < n && a + n <= fl.size && Progress(d, fl.dev, addr, len, a, n)
    requires d.locked ==> fl.dev.mem == d.mem && fl.dev.eraseLog == d.eraseLog
    modifies fl
    ensures Valid(fl) && (ret == 0 || ret == -1)
    ensures ret == 0 ==> 0 < size <= n && !d.locked && Progress(d, fl.dev, addr, len, a + size, n - size)
    ensures ret != 0 ==> EraseEnded(ret, fl.dev, d, addr, len)
  {
    size := BlockSize(a, n);
    if size == 0 {
      ProgressEnds(d, fl.dev, addr, len, a, n);
      return -1, size;
    }
    ghost var e := fl.dev;
    BlockFacts(a, n);
    var ok := EraseBlock(fl, a, size);
    if !ok {
      return -1, size;
    }
    ProgressStep(d, e, addr, len, a, n, size);
    ret := 0;
  }

  /** spi_flash_erase succeeds exactly when writing can be enabled and address and length are multiples of 4 KiB, or the
      length is 0.  Unless the device is locked it erases the aligned part of the request, in the blocks of Tiles. */
  method Erase(fl: SpiFlash, addr: nat, len: nat) returns (ret: int)
    requires Valid(fl) && addr + len <= fl.size
    modifies fl
    ensures Valid(fl)
    ensures ret == 0 || ret == -1
    ensures ret == 0 <==> len == 0 || (!old(fl.dev).locked && addr % SUBSECTOR == 0 && len % SUBSECTOR == 0)
    ensures fl.dev == old(fl.dev).(wel := fl.dev.wel, mem := fl.dev.mem, eraseLog := fl.dev.eraseLog)
    ensures old(fl.dev).locked ==> fl.dev.mem == old(fl.dev).mem && fl.dev.eraseLog == old(fl.dev).eraseLog
    ensures !old(fl.dev).locked ==>
              && fl.dev.mem == Erased(old(fl.dev).mem, addr, Erasable(addr, len))
              && fl.dev.eraseLog == old(fl.dev).eraseLog + Tiles(addr, len)
  {
    ghost var d := fl.dev;
    ProgressStarts(d, addr, len);
    var a, n := addr, len;
    while n > 0
      invariant Valid(fl) && 0 <= n && Progress(d, fl.dev, addr, len, a, n)
      invariant d.locked ==> fl.dev.mem == d.mem && fl.dev.eraseLog == d.eraseLog
      decreases n
    {
      var size;
      ret, size := EraseNext(fl, d, addr, len, a, n);
      if ret != 0 {
        return;
      }
      if n <= size {
        a, n := a + size, 0;
        break;
      }
      a, n := a + size, n - size;
    }
    EraseDone(d, fl.dev, addr, len, a);
    return 0;
  }
}
