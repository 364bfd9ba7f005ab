/** The SPI flash driver, run against the device model through its control register. */
module SpiDriver {
  import opened Bytes
  import opened SpiDevice
  import opened SpiPins

  class SpiFlash {
    /** The hardware behind ctrl_reg. */
    var dev: Dev
    const size: nat
    const dataWidth: nat
    const readDummyCycles: nat

    constructor (d: Dev, dataWidth: nat, readDummyCycles: nat)
      ensures dev == d && size == |d.mem| && this.dataWidth == dataWidth && this.readDummyCycles == readDummyCycles
    {
      dev := d;
      size := |d.mem|;
      this.dataWidth := dataWidth;
      this.readDummyCycles := readDummyCycles;
    }

    method RegWrite(v: Ctrl)
      modifies this
      ensures dev == OnWrite(old(dev), v)
    {
      dev := OnWrite(dev, v);
    }

    method RegRead() returns (d: Byte)
      ensures d == OnRead(dev)
    {
      d := OnRead(dev);
    }

    // -------------------------------------------------------------- bytes

    /** Present bits with the clock low, then raise it. */
    method ClockOut(bits: Byte, oe: Byte, ghost d: Dev, ghost w: Width, ghost n: nat, ghost acc: Byte, ghost acc': Byte,
                    ghost m: nat)
      requires Listens(d, w) && n < 8 && (n == 0 ==> acc == 0) && m == n + LaneCount(w)
      requires dev == Clocked(d, acc, n) && Sample(acc, w, bits & oe) == acc'
      modifies this
      ensures dev == Clocked(d, acc', m)
    {
      ClockStep(d, w, n, acc, Ctrl(bits, oe, false, false), Ctrl(bits, oe, true, false), bits & oe, acc', m);
      RegWrite(Ctrl(bits, oe, false, false));
      RegWrite(Ctrl(bits, oe, true, false));
    }

    method WriteStr(val: Byte)
      requires Listens(dev, One)
      modifies this
      ensures dev == Clocked(old(dev), val, 8)
    {
      Ends(val);
      var i := 7;
      while i >= 0
        invariant -1 <= i <= 7
        invariant dev == Clocked(old(dev), Top(val, 7 - i), 7 - i)
      {
        var bit := Shr(val, i) & 0x1;
        SampleStr(val, i);
        ClockOut(bit, 0x1, old(dev), One, 7 - i, Top(val, 7 - i), Top(val, 8 - i), 8 - i);
        i := i - 1;
      }
    }

    method WriteDual(val: Byte)
      requires Listens(dev, Two)
      modifies this
      ensures dev == Clocked(old(dev), val, 8)
    {
      Ends(val);
      var i := 6;
      while i >= 0
        invariant -2 <= i <= 6 && i % 2 == 0
        invariant dev == Clocked(old(dev), Top(val, 6 - i), 6 - i)
      {
        var bits := Shr(val, i) & 0x3;
        SampleDual(val, i);
        ClockOut(bits, 0x3, old(dev), Two, 6 - i, Top(val, 6 - i), Top(val, 8 - i), 8 - i);
        i := i - 2;
      }
    }

    method WriteQuad(val: Byte)
      requires Listens(dev, Four)
      modifies this
      ensures dev == Clocked(old(dev), val, 8)
    {
      Ends(val);
      var i := 4;
      while i >= 0
        invariant -4 <= i <= 4 && i % 4 == 0
        invariant dev == Clocked(old(dev), Top(val, 4 - i), 4 - i)
      {
        var bits := Shr(val, i) & 0xf;
        SampleQuad(val, i);
        ClockOut(bits, 0xf, old(dev), Four, 4 - i, Top(val, 4 - i), Top(val, 8 - i), 8 - i);
        i := i - 4;
      }
    }

    /** spi_flash_write_byte: the device receives exactly the byte; the double-rate protocols send nothing. */
    method WriteByte(val: Byte, protocol: Protocol)
      requires Double(protocol) || Listens(dev, WidthOf(protocol))
      modifies this
      ensures dev == if Double(protocol) then OnWrite(old(dev), LOW) else Sent(old(dev), val)
    {
      match protocol {
        case Str => WriteStr(val); ByteEnds(old(dev), val, One);
        case DualStr => WriteDual(val); ByteEnds(old(dev), val, Two);
        case QuadStr => WriteQuad(val); ByteEnds(old(dev), val, Four);
        case _ =>
      }
      RegWrite(LOW);
    }

    /** Lower the clock, look at the lines, raise the clock. */
    method TakeGroup(ghost d: Dev, ghost w: Width, ghost g: nat, ghost b: Byte) returns (r: Byte)
      requires Answers(d, w) && g < 8 / LaneCount(w) && dev == Taken(d, g) && b == OutByte(d, d.phase.src)
      modifies this
      ensures r == Lines(b, d.noise, w, g)
      ensures dev == Taken(d, g + 1)
    {
      NextGroup(d, w, g);
      ShowsGroup(d, w, g);
      TakesGroup(d, w, g);
      RegWrite(LOW);
      r := RegRead();
      RegWrite(CLOCK);
    }

    method TakeBit(val: Byte, i: nat, ghost d: Dev, ghost b: Byte) returns (r: Byte)
      requires Answers(d, One) && i < 8 && dev == Taken(d, 7 - i) && b == OutByte(d, d.phase.src)
               && val == High(b, 7 - i)
      modifies this
      ensures r == High(b, 8 - i) && dev == Taken(d, 8 - i)
    {
      var lines := TakeGroup(d, One, 7 - i, b);
      r := val | Shl(if lines & 0x2 != 0 then 1 else 0, i);
      ReceiveStr(b, i, lines, d.noise, val, r);
    }

    method TakePair(val: Byte, i: nat, ghost d: Dev, ghost b: Byte, ghost g: nat) returns (r: Byte)
      requires Answers(d, Two) && g < 4 && i == 6 - 2 * g && dev == Taken(d, g) && b == OutByte(d, d.phase.src)
               && val == High(b, 2 * g)
      modifies this
      ensures r == High(b, 2 * g + 2) && dev == Taken(d, g + 1)
    {
      var lines := TakeGroup(d, Two, g, b);
      var lane := lines & 0x3;
      ReceiveDual(b, g, i, lines, d.noise, lane, val, 2 * g);
      r := val | Shl(lane, i);
    }

    method TakeNibble(val: Byte, i: nat, ghost d: Dev, ghost b: Byte, ghost g: nat) returns (r: Byte)
      requires Answers(d, Four) && g < 2 && i == 4 - 4 * g && dev == Taken(d, g) && b == OutByte(d, d.phase.src)
               && val == High(b, 4 * g)
      modifies this
      ensures r == High(b, 4 * g + 4) && dev == Taken(d, g + 1)
    {
      var lines := TakeGroup(d, Four, g, b);
      var lane := lines & 0xf;
      ReceiveQuad(b, g, i, lines, d.noise, lane, val, 4 * g);
      r := val | Shl(lane, i);
    }

    method ReadStr() returns (val: Byte)
      requires Answers(dev, One)
      modifies this
      ensures val == OutByte(old(dev), old(dev).phase.src) && dev == Taken(old(dev), 8)
    {
      val := 0;
      ghost var b := OutByte(dev, dev.phase.src);
      Ends(b);
      var i := 7;
      while i >= 0
        invariant -1 <= i <= 7
        invariant dev == Taken(old(dev), 7 - i) && val == High(b, 7 - i)
      {
        val := TakeBit(val, i, old(dev), b);
        i := i - 1;
      }
    }

    method ReadDual() returns (val: Byte)
      requires Answers(dev, Two)
      modifies this
      ensures val == OutByte(old(dev), old(dev).phase.src) && dev == Taken(old(dev), 4)
    {
      val := 0;
      ghost var b, g := OutByte(dev, dev.phase.src), 0;
      Ends(b);
      var i := 6;
      while i >= 0
        invariant 0 <= g <= 4 && i == 6 - 2 * g
        invariant dev == Taken(old(dev), g) && val == High(b, 2 * g)
      {
        val := TakePair(val, i, old(dev), b, g);
        i, g := i - 2, g + 1;
      }
    }

    method ReadQuad() returns (val: Byte)
      requires Answers(dev, Four)
      modifies this
      ensures val == OutByte(old(dev), old(dev).phase.src) && dev == Taken(old(dev), 2)
    {
      val := 0;
      ghost var b, g := OutByte(dev, dev.phase.src), 0;
      Ends(b);
      var i := 4;
      while i >= 0
        invariant 0 <= g <= 2 && i == 4 - 4 * g
        invariant dev == Taken(old(dev), g) && val == High(b, 4 * g)
      {
        val := TakeNibble(val, i, old(dev), b, g);
        i, g := i - 4, g + 1;
      }
    }

    /** spi_flash_read_byte: exactly the byte the device is sending, which then goes on to the next one. */
    method ReadByte(protocol: Protocol) returns (val: Byte)
      requires !Double(protocol) && Answers(dev, WidthOf(protocol))
      modifies this
      ensures val == OutByte(old(dev), old(dev).phase.src)
      ensures dev == NextOut(old(dev), old(dev).phase.src)
    {
      match protocol {
        case Str => val := ReadStr(); AnswerEnds(old(dev), One, 8);
        case DualStr => val := ReadDual(); AnswerEnds(old(dev), Two, 4);
        case QuadStr => val := ReadQuad(); AnswerEnds(old(dev), Four, 2);
      }
      RegWrite(LOW);
    }
  }
}
