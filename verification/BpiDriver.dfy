/** The parallel flash driver: bus cycles, the buffered program of each command set, and reading and writing ranges. */
module BpiDriver {
  import opened BpiDevice

  const SELECTED := Ctrl(false, true, true, true, false, false)
  const READING := Ctrl(false, false, true, false, false, true)
  const WRITING := Ctrl(false, true, false, false, true, true)
  const DESELECTED := Ctrl(true, true, true, true, false, false)

  predicate Drives(c: Ctrl) { !c.ceN && c.oeN && !c.weN && c.dqOe && c.regionOe }
  predicate Samples(c: Ctrl) { !c.ceN && !c.oeN && c.weN && !c.dqOe && c.regionOe }

  /** The address, data and control registers and the device behind them.  A read cycle starts when the output is
      enabled, a write cycle ends when the write strobe is released. */
  class BpiFlash {
    var dev: Dev
    var addrReg: nat
    var dataReg: Word
    var ctrl: Ctrl
    var out: Word
    const writeBufferSize: nat
    const regions: seq<Region>
    const eraseBlockSize: nat

    method SetAddr(addr: nat)
      modifies this`addrReg
      ensures addrReg == addr % 0x1_0000_0000
    {
      addrReg := addr % 0x1_0000_0000;
    }

    method WriteCtrl(c: Ctrl)
      modifies this`ctrl, this`dev, this`out
      ensures ctrl == c
      ensures dev == if Drives(old(ctrl)) && !Drives(c) then WriteCycle(old(dev), addrReg, dataReg)
                     else if Samples(c) && !Samples(old(ctrl)) then AfterRead(old(dev))
                     else old(dev)
      ensures out == if !(Drives(old(ctrl)) && !Drives(c)) && Samples(c) && !Samples(old(ctrl))
                     then ReadOut(old(dev), addrReg) else old(out)
    {
      if Drives(ctrl) && !Drives(c) {
        dev := WriteCycle(dev, addrReg, dataReg);
      } else if Samples(c) && !Samples(ctrl) {
        out := ReadOut(dev, addrReg);
        dev := AfterRead(dev);
      }
      ctrl := c;
    }

    /** The data register shows the word of the current read cycle, however often it is read. */
    method ReadData() returns (val: Word)
      ensures val == out
    {
      val := out;
    }

    method ReadCur() returns (val: Word)
      requires ctrl == SELECTED || ctrl == DESELECTED
      modifies this`ctrl, this`dev, this`out
      ensures ctrl == SELECTED && val == ReadOut(old(dev), addrReg) && dev == AfterRead(old(dev))
    {
      WriteCtrl(READING);
      val := ReadData();
      val := ReadData();
      WriteCtrl(SELECTED);
    }

    method WriteCur(data: Word)
      requires ctrl == SELECTED || ctrl == DESELECTED
      modifies this`ctrl, this`dev, this`out, this`dataReg
      ensures ctrl == SELECTED && dev == WriteCycle(old(dev), addrReg, data)
    {
      dataReg := data;
      WriteCtrl(WRITING);
      var dummy := ReadData();
      WriteCtrl(SELECTED);
    }

    method ReadWord(addr: nat) returns (val: Word)
      requires (ctrl == SELECTED || ctrl == DESELECTED) && addr < 0x1_0000_0000
      modifies this
      ensures ctrl == SELECTED && addrReg == addr && val == ReadOut(old(dev), addr) && dev == AfterRead(old(dev))
    {
      SetAddr(addr);
      val := ReadCur();
    }

    method WriteWord(addr: nat, data: Word)
      requires (ctrl == SELECTED || ctrl == DESELECTED) && addr < 0x1_0000_0000
      modifies this
      ensures ctrl == SELECTED && addrReg == addr && dev == WriteCycle(old(dev), addr, data)
    {
      SetAddr(addr);
      WriteCur(data);
    }

    method Deselect()
      requires ctrl == SELECTED || ctrl == DESELECTED
      modifies this
      ensures ctrl == DESELECTED && dev == WriteCycle(old(dev), 0, Cmd(0xFF))
    {
      WriteWord(0, Cmd(0xFF));
      WriteCtrl(DESELECTED);
    }
  }
}
