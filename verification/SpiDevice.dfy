/** A serial NOR flash seen from its pins.  It samples its input lines on rising clock edges and moves its
    output lines on falling ones, decodes the command set the driver uses, programs whole pages with
    wrap-around inside the page, and reports a busy bit for an arbitrary number of status reads. */
module SpiDevice {
  import opened Bytes
  import opened NorMemory

  /** One value of the control register: four data lines with their output enables, clock, chip select. */
  datatype Ctrl = Ctrl(d: Byte, oe: Byte, clk: bool, csN: bool)

  /** How many lines carry data in the current part of a command. */
  datatype Width = One | Two | Four

  datatype Kind = Fetching | Programming | Erasing(size: nat)

  datatype Source = Array(addr: nat) | Status

  datatype Phase =
    | Command
    | Address(kind: Kind, need: nat, got: seq<Byte>)
    | Dummy(addr: nat, left: nat)
    | Out(src: Source, group: int)
    | PageData(page: nat, off: nat, buf: map<nat, Byte>)
    | EraseArmed(addr: nat, size: nat)
    | EnableArmed
    | Ignored

  /** `locked` makes write-enable ineffective; `latency` is how many status reads an operation keeps the
      device busy; `dummies` is the configured number of dummy cycles; `noise` is what undriven lines read as.
      `eraseLog` records the blocks erased, as (address, size). */
  datatype Dev = Dev(mem: seq<Byte>, locked: bool, latency: nat, dummies: nat, noise: Byte,
                     wel: bool, busy: nat, eraseLog: seq<(nat, nat)>,
                     selected: bool, clk: bool, width: Width, phase: Phase, nbits: nat, acc: Byte)

  // ---------------------------------------------------------------- bytes

  function LaneCount(w: Width): nat { match w case One => 1 case Two => 2 case Four => 4 }

  function StatusByte(d: Dev): Byte { (if d.wel then 0x02 else 0) | (if d.busy > 0 then 0x01 else 0) }

  function OutByte(d: Dev, src: Source): Byte {
    match src
    case Array(a) => if a < |d.mem| then d.mem[a] else if |d.mem| > 0 then d.mem[a % |d.mem|] else ERASED
    case Status => StatusByte(d)
  }

  // ---------------------------------------------------------------- whole bytes

  /** What the device does next on a command byte; while busy it only answers status reads.  Only a large device,
      one above 16 MiB, knows the commands with four address bytes. */
  function Decode(large: bool, busy: bool, b: Byte): (r: (Phase, Width))
    ensures r.0.Out? ==> r.0.group == -1
  {
    if b == 0x05 then (Out(Status, -1), One)
    else if busy then (Ignored, One)
    else if b == 0x06 then (EnableArmed, One)
    else if b == 0x03 then (Address(Fetching, 3, []), One)
    else if large && b == 0x13 then (Address(Fetching, 4, []), One)
    else if b == 0xBB then (Address(Fetching, 3, []), Two)
    else if large && b == 0xBC then (Address(Fetching, 4, []), Two)
    else if b == 0xEB then (Address(Fetching, 3, []), Four)
    else if large && b == 0xEC then (Address(Fetching, 4, []), Four)
    else if b == 0x02 then (Address(Programming, 3, []), One)
    else if large && b == 0x12 then (Address(Programming, 4, []), One)
    else if b == 0x38 then (Address(Programming, 3, []), Four)
    else if large && b == 0x3E then (Address(Programming, 4, []), Four)
    else if b == 0x20 then (Address(Erasing(0x1000), 3, []), One)
    else if large && b == 0x21 then (Address(Erasing(0x1000), 4, []), One)
    else if b == 0xD8 then (Address(Erasing(0x1_0000), 3, []), One)
    else if large && b == 0xDC then (Address(Erasing(0x1_0000), 4, []), One)
    else (Ignored, One)
  }

  function Addressed(width: Width, dummies: nat, kind: Kind, a: nat): (p: Phase)
    ensures p.Out? ==> p.group == -1
  {
    match kind
    case Fetching => if width == One || dummies == 0 then Out(Array(a), -1) else Dummy(a, dummies)
    case Programming => PageData(a / 0x100, a % 0x100, map[])
    case Erasing(size) => EraseArmed(a, size)
  }

  /** Where a complete input byte takes the device. */
  function NextPhase(large: bool, busy: bool, dummies: nat, width: Width, phase: Phase, b: Byte): (r: (Phase, Width))
    ensures r.0.Out? ==> r.0.group == -1
  {
    match phase
    case Command => Decode(large, busy, b)
    case Address(kind, need, got) =>
      (if need <= 1 then Addressed(width, dummies, kind, Value(got + [b]))
            else Address(kind, need - 1, got + [b]), width)
    case PageData(page, off, buf) => (PageData(page, (off + 1) % 0x100, buf[off := b]), width)
    case _ => (Ignored, width)
  }

  predicate Large(d: Dev) { |d.mem| > 0x100_0000 }

  /** A complete byte has been shifted in. */
  function ByteIn(d: Dev, b: Byte): Dev {
    var r := NextPhase(Large(d), d.busy > 0, d.dummies, d.width, d.phase, b);
    d.(phase := r.0, width := r.1)
  }

  /** The output has been shifted out completely; reading status lets time pass. */
  function NextOut(d: Dev, src: Source): Dev {
    match src
    case Array(a) => d.(phase := Out(Array(a + 1), 0))
    case Status => d.(phase := Out(Status, 0), busy := if d.busy > 0 then d.busy - 1 else 0)
  }

  // ---------------------------------------------------------------- clock edges and chip select

  predicate Input(p: Phase) { !p.Out? && !p.Dummy? }

  function Sample(acc: Byte, w: Width, lanes: Byte): Byte {
    match w
    case One => (acc << 1) | (lanes & 0x1)
    case Two => (acc << 2) | (lanes & 0x3)
    case Four => (acc << 4) | (lanes & 0xf)
  }

  function Rise(d: Dev, lanes: Byte): Dev {
    var d := d.(clk := true);
    if d.phase.Out? then d
    else if d.phase.Dummy? then
      d.(phase := if d.phase.left <= 1 then Out(Array(d.phase.addr), -1) else Dummy(d.phase.addr, d.phase.left - 1))
    else Shift(d, Sample(d.acc, d.width, lanes), d.nbits + LaneCount(d.width))
  }

  function Shift(d: Dev, acc: Byte, n: nat): Dev {
    if n >= 8 then ByteIn(d.(acc := 0, nbits := 0), acc) else d.(acc := acc, nbits := n)
  }

  function Fall(d: Dev): Dev {
    var d := d.(clk := false);
    if d.phase.Out? then
      var g := d.phase.group + 1;
      if g >= 8 / LaneCount(d.width) then NextOut(d, d.phase.src) else d.(phase := Out(d.phase.src, g))
    else d
  }

  /** Page programming: every latched byte is ANDed into its place in the page. */
  function PageProgrammed(m: seq<Byte>, page: nat, buf: map<nat, Byte>): (r: seq<Byte>)
    ensures |r| == |m|
    ensures forall i | 0 <= i < |m| ::
              r[i] == if i / 0x100 == page && i % 0x100 in buf then m[i] & buf[i % 0x100] else m[i]
  {
    seq(|m|, i requires 0 <= i < |m| =>
      if i / 0x100 == page && i % 0x100 in buf then m[i] & buf[i % 0x100] else m[i])
  }

  /** Chip select goes high: an armed operation on a byte boundary is carried out. */
  function Release(d: Dev): Dev {
    var e := d.(selected := false, phase := Command, width := One, nbits := 0, acc := 0);
    if d.nbits != 0 then e
    else match d.phase
         case EnableArmed => e.(wel := !d.locked)
         case PageData(page, _, buf) =>
           if d.wel then e.(mem := PageProgrammed(d.mem, page, buf), wel := false, busy := d.latency) else e
         case EraseArmed(a, size) =>
           if d.wel && size > 0 then
             e.(mem := Erased(d.mem, a - a % size, size), wel := false, busy := d.latency,
                eraseLog := d.eraseLog + [(a - a % size, size)])
           else e
         case _ => e
  }

  /** A write to the control register. */
  function OnWrite(d: Dev, v: Ctrl): Dev {
    if v.csN then (if d.selected then Release(d) else d).(clk := v.clk)
    else if !d.selected then d.(selected := true, clk := v.clk, phase := Command, width := One, nbits := 0, acc := 0)
    else if v.clk && !d.clk then Rise(d, v.d & v.oe)
    else if !v.clk && d.clk then Fall(d)
    else d
  }

  function Group(b: Byte, w: Width, g: int): Byte
    requires 0 <= g < 8 / LaneCount(w)
  {
    match w
    case One => (Shr(b, 7 - g) & 0x1) << 1
    case Two => Shr(b, 6 - 2 * g) & 0x3
    case Four => Shr(b, 4 - 4 * g) & 0xf
  }

  function OutMask(w: Width): Byte { match w case One => 0x2 case Two => 0x3 case Four => 0xf }

  /** The lines the device drives, and noise on the others. */
  function Lines(b: Byte, noise: Byte, w: Width, g: int): Byte
    requires 0 <= g < 8 / LaneCount(w)
  {
    Group(b, w, g) | (noise & !OutMask(w))
  }

  /** A read of the control register. */
  function OnRead(d: Dev): Byte {
    if d.selected && d.phase.Out? && 0 <= d.phase.group < 8 / LaneCount(d.width) then
      Lines(OutByte(d, d.phase.src), d.noise, d.width, d.phase.group)
    else d.noise
  }
}
