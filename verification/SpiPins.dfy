/** The bit-banged bus: what a device that listens to the pins makes of the driver's byte routines. */
module SpiPins {
  import opened Bytes
  import opened SpiDevice

  datatype Protocol = Str | Dtr | DualStr | DualDtr | QuadStr | QuadDtr

  const LOW: Ctrl := Ctrl(0, 0, false, false)
  const CLOCK: Ctrl := Ctrl(0, 0, true, false)
  const CS_N: Ctrl := Ctrl(0, 0, false, true)

  predicate Double(p: Protocol) { p == Dtr || p == DualDtr || p == QuadDtr }

  function WidthOf(p: Protocol): Width
    requires !Double(p)
  {
    match p case Str => One case DualStr => Two case QuadStr => Four
  }

  // ---------------------------------------------------------------- bytes towards the device

  /** The first data bit selects a deselected device. */
  function Begun(d: Dev): Dev {
    if d.selected then d else d.(selected := true, clk := false, phase := Command, width := One, nbits := 0, acc := 0)
  }

  /** The device expects a byte on w lines. */
  predicate Listens(d: Dev, w: Width) {
    var e := Begun(d);
    !e.clk && Input(e.phase) && e.width == w && e.nbits == 0 && e.acc == 0
  }

  /** The falling edge that ends a byte presents the first output bits, if the device now answers. */
  function Settle(d: Dev): Dev {
    if d.phase.Out? && d.phase.group < 0 then d.(phase := Out(d.phase.src, 0)) else d
  }

  /** The device after one byte has been written to it. */
  function Sent(d: Dev, b: Byte): Dev { Settle(ByteIn(Begun(d), b)) }

  /** The first n bits of b, as the shift register holds them. */
  function Top(b: Byte, n: nat): Byte
    requires n <= 8
  {
    Shr(b, 8 - n)
  }

  /** The device after n bits have been clocked in and left acc in the shift register, with the clock still high. */
  function Clocked(d: Dev, acc: Byte, n: nat): Dev {
    if n == 0 then d
    else if n < 8 then Begun(d).(clk := true, nbits := n, acc := acc)
    else ByteIn(Begun(d).(clk := true), acc)
  }

  lemma SampleStr(b: Byte, i: nat)
    requires i < 8
    ensures Sample(Top(b, 7 - i), One, (Shr(b, i) & 0x1) & 0x1) == Top(b, 8 - i)
  {
    if i == 0 {} else if i == 1 {} else if i == 2 {} else if i == 3 {}
    else if i == 4 {} else if i == 5 {} else if i == 6 {} else {}
  }

  lemma SampleDual(b: Byte, i: nat)
    requires i == 0 || i == 2 || i == 4 || i == 6
    ensures Sample(Top(b, 6 - i), Two, (Shr(b, i) & 0x3) & 0x3) == Top(b, 8 - i)
  {
    if i == 0 {} else if i == 2 {} else if i == 4 {} else {}
  }

  lemma SampleQuad(b: Byte, i: nat)
    requires i == 0 || i == 4
    ensures Sample(Top(b, 4 - i), Four, (Shr(b, i) & 0xf) & 0xf) == Top(b, 8 - i)
  {
    if i == 0 {} else {}
  }

  lemma LowStep(d: Dev, n: nat, acc: Byte, low: Ctrl)
    requires Listens(d, Begun(d).width) && n < 8 && (n == 0 ==> acc == 0)
    requires !low.clk && !low.csN
    ensures OnWrite(Clocked(d, acc, n), low) == Begun(d).(nbits := n, acc := acc)
  {
  }

  lemma RiseSamples(d: Dev, w: Width, n: nat, acc: Byte, lanes: Byte, acc': Byte)
    requires Listens(d, w) && Sample(acc, w, lanes) == acc'
    ensures Rise(Begun(d).(nbits := n, acc := acc), lanes)
              == Shift(Begun(d).(clk := true, nbits := n, acc := acc), acc', n + LaneCount(w))
  {
  }

  lemma ShiftCompletes(d: Dev, n: nat, acc: Byte, acc': Byte, m: nat)
    requires Begun(d).nbits == 0 && Begun(d).acc == 0
    ensures Shift(Begun(d).(clk := true, nbits := n, acc := acc), acc', m)
            == if m < 8 then Begun(d).(clk := true, nbits := m, acc := acc') else ByteIn(Begun(d).(clk := true), acc')
  {
    var e := Begun(d).(clk := true, nbits := n, acc := acc);
    assert e.(acc := 0, nbits := 0) == Begun(d).(clk := true);
  }

  lemma HighStep(d: Dev, v: Ctrl)
    requires d.selected && !d.clk && v.clk && !v.csN
    ensures OnWrite(d, v) == Rise(d, v.d & v.oe)
  {
  }

  lemma RiseClocks(d: Dev, w: Width, n: nat, acc: Byte, lanes: Byte, acc': Byte, m: nat)
    requires Listens(d, w) && n < 8 && Sample(acc, w, lanes) == acc' && m == n + LaneCount(w)
    ensures Rise(Begun(d).(nbits := n, acc := acc), lanes) == Clocked(d, acc', m)
  {
    RiseSamples(d, w, n, acc, lanes, acc');
    ShiftCompletes(d, n, acc, acc', m);
  }

  /** Presenting bits with the clock low, then raising it, clocks them in. */
  lemma ClockStep(d: Dev, w: Width, n: nat, acc: Byte, low: Ctrl, high: Ctrl, lanes: Byte, acc': Byte, m: nat)
    requires Listens(d, w) && n < 8 && (n == 0 ==> acc == 0) && m == n + LaneCount(w)
    requires !low.clk && !low.csN && high.clk && !high.csN && lanes == high.d & high.oe
    requires Sample(acc, w, lanes) == acc'
    ensures OnWrite(OnWrite(Clocked(d, acc, n), low), high) == Clocked(d, acc', m)
  {
    LowStep(d, n, acc, low);
    HighStep(Begun(d).(nbits := n, acc := acc), high);
    RiseClocks(d, w, n, acc, lanes, acc', m);
  }

  /** Shifting in a byte never leaves the device in the middle of an answer. */
  lemma ByteInKeeps(d: Dev, b: Byte, clk: bool)
    ensures ByteIn(d.(clk := clk), b) == ByteIn(d, b).(clk := clk)
    ensures var e := ByteIn(d, b); e.selected == d.selected && e.clk == d.clk && e.nbits == d.nbits && e.acc == d.acc
    ensures var e := ByteIn(d, b); e.phase.Out? ==> e.phase.group == -1
  {
  }

  lemma ByteEnds(d: Dev, b: Byte, w: Width)
    requires Listens(d, w)
    ensures OnWrite(Clocked(d, b, 8), LOW) == Sent(d, b)
  {
    ByteInKeeps(Begun(d), b, true);
    FallSettles(Clocked(d, b, 8), ByteIn(Begun(d), b));
  }

  lemma FallSettles(c: Dev, e: Dev)
    requires c.selected && c.clk && (c.phase.Out? ==> c.phase.group == -1) && e == c.(clk := false)
    ensures OnWrite(c, LOW) == Settle(e)
  {
  }

  // ---------------------------------------------------------------- bytes from the device

  /** The device presents the first bits of an answer on w lines. */
  predicate Answers(d: Dev, w: Width) {
    d.selected && !d.clk && d.phase.Out? && d.phase.group == 0 && d.width == w
  }

  /** The device after g groups of bits have been taken, with the clock high. */
  function Taken(d: Dev, g: nat): Dev
    requires d.phase.Out?
  {
    if g == 0 then d else d.(clk := true, phase := Out(d.phase.src, g - 1))
  }

  /** Lowering the clock presents the next group. */
  lemma NextGroup(d: Dev, w: Width, g: nat)
    requires Answers(d, w) && g < 8 / LaneCount(w)
    ensures OnWrite(Taken(d, g), LOW) == d.(phase := Out(d.phase.src, g))
  {
  }

  /** Reading the register shows the group that is presented. */
  lemma ShowsGroup(d: Dev, w: Width, g: nat)
    requires Answers(d, w) && g < 8 / LaneCount(w)
    ensures OnRead(d.(phase := Out(d.phase.src, g))) == Lines(OutByte(d, d.phase.src), d.noise, w, g)
  {
    SameByte(d, d.(phase := Out(d.phase.src, g)), d.phase.src);
  }

  /** What a device has to say does not depend on where it is in saying it. */
  lemma SameByte(d: Dev, e: Dev, src: Source)
    requires e.mem == d.mem && e.wel == d.wel && e.busy == d.busy
    ensures OutByte(e, src) == OutByte(d, src)
  {
  }

  lemma TakesGroup(d: Dev, w: Width, g: nat)
    requires Answers(d, w)
    ensures OnWrite(d.(phase := Out(d.phase.src, g)), CLOCK) == Taken(d, g + 1)
  {
  }

  lemma AnswerEnds(d: Dev, w: Width, n: nat)
    requires Answers(d, w) && n == 8 / LaneCount(w)
    ensures OnWrite(Taken(d, n), LOW) == NextOut(d, d.phase.src)
  {
  }

  /** The first n bits of b, in place. */
  function High(b: Byte, n: nat): Byte
    requires n <= 8
  {
    Shl(Shr(b, 8 - n), 8 - n)
  }

  lemma GatherStr(b: Byte, i: nat)
    requires i < 8
    ensures High(b, 7 - i) | Shl(Shr(b, i) & 0x1, i) == High(b, 8 - i)
  {
    if i == 0 {} else if i == 1 {} else if i == 2 {} else if i == 3 {}
    else if i == 4 {} else if i == 5 {} else if i == 6 {} else {}
  }

  lemma GatherDual(b: Byte, i: nat)
    requires i == 0 || i == 2 || i == 4 || i == 6
    ensures High(b, 6 - i) | Shl(Shr(b, i) & 0x3, i) == High(b, 8 - i)
  {
    if i == 0 {} else if i == 2 {} else if i == 4 {} else {}
  }

  lemma GatherQuad(b: Byte, i: nat)
    requires i == 0 || i == 4
    ensures High(b, 4 - i) | Shl(Shr(b, i) & 0xf, i) == High(b, 8 - i)
  {
    if i == 0 {} else {}
  }

  /** What the driver extracts from a register read is the group, whatever the other lines read as. */
  lemma MaskStr(b: Byte, g: nat, r: Byte, noise: Byte)
    requires g < 8 && r == Group(b, One, g) | (noise & !0x2)
    ensures (if r & 0x2 != 0 then 1 as Byte else 0) == Shr(b, 7 - g) & 0x1
  {
    LaneOne(Shr(b, 7 - g), r, noise);
  }

  lemma LaneOne(x: Byte, r: Byte, noise: Byte)
    requires r == ((x & 0x1) << 1) | (noise & !0x2)
    ensures (if r & 0x2 != 0 then 1 as Byte else 0) == x & 0x1
  {
  }

  lemma MaskDual(b: Byte, g: nat, i: nat, lines: Byte, noise: Byte, lane: Byte)
    requires g < 4 && i == 6 - 2 * g && lines == Lines(b, noise, Two, g) && lane == lines & 0x3
    ensures lane == Shr(b, i) & 0x3
  {
    MaskLanes(Shr(b, i), lines, noise);
  }

  lemma MaskQuad(b: Byte, g: nat, i: nat, lines: Byte, noise: Byte, lane: Byte)
    requires g < 2 && i == 4 - 4 * g && lines == Lines(b, noise, Four, g) && lane == lines & 0xf
    ensures lane == Shr(b, i) & 0xf
  {
    MaskLanes(Shr(b, i), lines, noise);
  }

  lemma MaskLanes(x: Byte, r: Byte, noise: Byte)
    ensures r == (x & 0x3) | (noise & !0x3) ==> r & 0x3 == x & 0x3
    ensures r == (x & 0xf) | (noise & !0xf) ==> r & 0xf == x & 0xf
  {
  }

  /** One more group of bits, gathered from the lines: the value is one group longer. */
  lemma ReceiveStr(b: Byte, i: nat, lines: Byte, noise: Byte, val: Byte, r: Byte)
    requires i < 8 && lines == Lines(b, noise, One, 7 - i)
    requires val == High(b, 7 - i) && r == val | Shl(if lines & 0x2 != 0 then 1 else 0, i)
    ensures r == High(b, 8 - i)
  {
    MaskStr(b, 7 - i, lines, noise);
    GatherStr(b, i);
  }

  lemma ReceiveDual(b: Byte, g: nat, i: nat, lines: Byte, noise: Byte, lane: Byte, val: Byte, n: nat)
    requires g < 4 && i == 6 - 2 * g && lines == Lines(b, noise, Two, g) && lane == lines & 0x3
    requires n == 2 * g && val == High(b, n)
    ensures val | Shl(lane, i) == High(b, n + 2)
  {
    MaskDual(b, g, i, lines, noise, lane);
    GatherDual(b, i);
  }

  lemma ReceiveQuad(b: Byte, g: nat, i: nat, lines: Byte, noise: Byte, lane: Byte, val: Byte, n: nat)
    requires g < 2 && i == 4 - 4 * g && lines == Lines(b, noise, Four, g) && lane == lines & 0xf
    requires n == 4 * g && val == High(b, n)
    ensures val | Shl(lane, i) == High(b, n + 4)
  {
    MaskQuad(b, g, i, lines, noise, lane);
    GatherQuad(b, i);
  }

  /** No bits yet, and all of them. */
  lemma Ends(b: Byte)
    ensures High(b, 0) == 0 && Top(b, 0) == 0
    ensures High(b, 8) == b && Top(b, 8) == b
  {
  }
}
