/** Buffered programming and reading of a parallel flash. */
module BpiCommands {
  import opened Bits
  import opened Bytes
  import opened NorMemory
  import opened BpiDevice
  import opened BpiDriver

  /** No command is under way. */
  ghost predicate Quiet(fl: BpiFlash)
    reads fl
  {
    (fl.ctrl == SELECTED || fl.ctrl == DESELECTED) && fl.dev.phase == Idle
  }

  /** The driver's idea of the device is right, and the device is ready for a command.  The status register of an Intel
      or Micron device may still show an error of an earlier operation. */
  ghost predicate Settled(fl: BpiFlash)
    reads fl
  {
    && Quiet(fl) && fl.dev.busy == 0 && (fl.dev.err == 0 || (fl.dev.family != Amd && fl.dev.err in {0x10, 0x20, 0x30}))
    && fl.writeBufferSize == 2 * fl.dev.window && IsPow2(fl.writeBufferSize) && 0 < fl.dev.window < 0x1_0000
    && |fl.dev.mem| % 2 == 0 && |fl.dev.mem| <= 0x2_0000_0000
  }

  /** Besides, no error is shown. */
  ghost predicate Valid(fl: BpiFlash)
    reads fl
  {
    Settled(fl) && fl.dev.err == 0
  }

  /** What an operation leaves in the status register: nothing new if it succeeded, the error if it failed.  Only
      the AMD command set clears it. */
  ghost predicate ErrorsAfter(d: Dev, before: Dev, ret: int) {
    && (ret == 0 ==> d.err == before.err)
    && (ret != 0 && d.family != Amd ==> d.err != 0 && (!d.fails && before.err == 0 ==> d.err == 0x30))
  }

  /** bpi_flash_deselect leaves a quiet device as it is, in read mode. */
  method Release(fl: BpiFlash)
    requires Quiet(fl)
    modifies fl
    ensures Quiet(fl) && fl.dev == old(fl.dev).(status := fl.dev.status)
    ensures old(fl.dev).busy == 0 && old(fl.dev).family != Amd ==> !fl.dev.status
  {
    fl.Deselect();
  }

  // ---------------------------------------------------------------- waiting

  method ReadStatus(fl: BpiFlash) returns (s: Byte)
    requires Quiet(fl) && fl.dev.family != Amd
    modifies fl`ctrl, fl`dev, fl`out, fl`dataReg
    ensures Quiet(fl) && fl.ctrl == SELECTED
    ensures s == if old(fl.dev).busy > 0 then 0 else 0x80 | old(fl.dev).err
    ensures fl.dev == old(fl.dev).(status := true, busy := if old(fl.dev).busy > 0 then old(fl.dev).busy - 1 else 0)
  {
    fl.WriteCur(Cmd(0x70));
    var w := fl.ReadCur();
    s := w.lo;
  }

  lemma StatusBits(err: Byte)
    requires err == 0 || err == 0x10 || err == 0x20 || err == 0x30
    ensures (0x80 | err) & 0x80 != 0 && ((0x80 | err) & 0x30 != 0 <==> err != 0)
  {
  }

  /** Intel and Micron: poll the ready bit, then look at the error bits. */
  method WaitStatus(fl: BpiFlash) returns (failed: bool)
    requires Quiet(fl) && fl.dev.family != Amd && fl.dev.err in {0, 0x10, 0x20, 0x30}
    modifies fl`ctrl, fl`dev, fl`out, fl`dataReg
    ensures Quiet(fl) && fl.ctrl == SELECTED && fl.dev == old(fl.dev).(status := true, busy := 0)
    ensures failed <==> old(fl.dev).err != 0
  {
    StatusBits(fl.dev.err);
    var s := ReadStatus(fl);
    while s & 0x80 == 0
      invariant Quiet(fl) && fl.ctrl == SELECTED && fl.dev == old(fl.dev).(status := true, busy := fl.dev.busy)
      invariant s == 0 || (s == 0x80 | fl.dev.err && fl.dev.busy == 0)
      decreases fl.dev.busy, s & 0x80 == 0
    {
      s := ReadStatus(fl);
    }
    s := ReadStatus(fl);
    failed := s & 0x30 != 0;
  }

  /** Bit 6 of three consecutive reads of an AMD device. */
  predicate Toggled(a: Byte, b: Byte, c: Byte) { (a ^ b) & (b ^ c) & 0x40 != 0 }

  lemma ToggledFacts(t: bool, e: Byte, f: Byte, g: Byte)
    requires e & 0x40 == 0 && f & 0x40 == 0 && g & 0x40 == 0
    ensures Toggled((if t then 0x40 else 0) | e, (if t then 0 else 0x40) | f, (if t then 0x40 else 0) | g)
    ensures ((if t then 0x40 else 0) | e) & 0x22 == e & 0x22 && ((if t then 0x40 else 0) | e) & 0x20 == e & 0x20
  {
  }

  lemma ShownFacts(d: Dev)
    requires d.err in {0, 0x02, 0x20}
    ensures Shown(d) & 0x40 == 0 && (Shown(d) & 0x22 != 0 <==> d.busy == 0 && d.err != 0)
    ensures Shown(d) & 0x20 != 0 <==> d.busy == 0 && d.err == 0x20
  {
  }

  lemma SettledFacts(a: Byte, b: Byte)
    ensures !Toggled(a, b, b)
  {
  }

  /** The bits that stop the wait: those that can show an error of the operation. */
  predicate StopMask(mask: Byte, err: Byte) {
    (mask == 0x22 && err in {0, 0x02, 0x20}) || (mask == 0x20 && err in {0, 0x20})
  }

  method ReadThrice(fl: BpiFlash, mask: Byte) returns (r1: Byte, r2: Byte, r3: Byte)
    requires Quiet(fl) && fl.dev.family == Amd && StopMask(mask, fl.dev.err)
    modifies fl`ctrl, fl`dev, fl`out
    ensures Quiet(fl) && fl.ctrl == SELECTED
    ensures fl.dev == old(fl.dev).(busy := if old(fl.dev).busy > 3 then old(fl.dev).busy - 3 else 0,
                                   toggle := fl.dev.toggle)
    ensures !Toggled(r1, r2, r3) ==> fl.dev.busy == 0 && fl.dev.err == 0
    ensures Toggled(r1, r2, r3) ==> old(fl.dev).busy > 0 || fl.dev.err != 0
    ensures r1 & mask != 0 && Toggled(r1, r2, r3) <==> old(fl.dev).busy == 0 && fl.dev.err != 0
  {
    ghost var d1 := fl.dev;
    var w1 := fl.ReadCur();
    ghost var d2 := fl.dev;
    var w2 := fl.ReadCur();
    ghost var d3 := fl.dev;
    var w3 := fl.ReadCur();
    r1, r2, r3 := w1.lo, w2.lo, w3.lo;
    SettledFacts(r1, r2);
    ShownFacts(d1);
    ShownFacts(d2);
    ShownFacts(d3);
    ToggledFacts(d1.toggle, Shown(d1), Shown(d2), Shown(d3));
  }

  /** AMD: read until bit 6 stops toggling or an error bit shows. */
  method WaitToggle(fl: BpiFlash, mask: Byte) returns (r: Byte)
    requires Quiet(fl) && fl.dev.family == Amd && StopMask(mask, fl.dev.err)
    modifies fl`ctrl, fl`dev, fl`out
    ensures Quiet(fl) && fl.ctrl == SELECTED && fl.dev == old(fl.dev).(busy := 0, toggle := fl.dev.toggle)
    ensures r & mask != 0 <==> old(fl.dev).err != 0
  {
    var r1, r2, r3 := ReadThrice(fl, mask);
    while Toggled(r1, r2, r3) && r1 & mask == 0
      invariant Quiet(fl) && fl.ctrl == SELECTED && fl.dev == old(fl.dev).(busy := fl.dev.busy, toggle := fl.dev.toggle)
      invariant !Toggled(r1, r2, r3) ==> fl.dev.busy == 0 && fl.dev.err == 0
      invariant r1 & mask != 0 && Toggled(r1, r2, r3) ==> fl.dev.busy == 0 && fl.dev.err != 0
      decreases fl.dev.busy, Toggled(r1, r2, r3) && r1 & mask == 0
    {
      r1, r2, r3 := ReadThrice(fl, mask);
    }
    r := if Toggled(r1, r2, r3) then r1 else 0;
  }

  // ---------------------------------------------------------------- filling the buffer

  /** The words of `data`, each at its own address from `a` on. */
  ghost function WordsOf(a: nat, data: seq<Byte>): map<nat, Word>
    decreases |data|
  {
    if |data| < 2 then map[]
    else
      var n := |data| - 2;
      WordsOf(a, data[..n])[a + n / 2 := Word(data[n], data[n + 1])]
  }

  lemma {:induction false} WordsOfAt(a: nat, data: seq<Byte>, k: nat)
    requires |data| % 2 == 0
    ensures k in WordsOf(a, data) <==> a <= k < a + |data| / 2
    ensures a <= k < a + |data| / 2 ==> WordsOf(a, data)[k] == Word(data[2 * (k - a)], data[2 * (k - a) + 1])
    decreases |data|
  {
    if |data| >= 2 {
      WordsOfAt(a, data[..|data| - 2], k);
    }
  }

  /** Programming these words is programming the bytes. */
  lemma BurntWords(m: seq<Byte>, a: nat, data: seq<Byte>)
    requires |data| % 2 == 0
    ensures Burnt(m, WordsOf(a, data)) == Programmed(m, 2 * a, data)
  {
    var l, r := Burnt(m, WordsOf(a, data)), Programmed(m, 2 * a, data);
    forall i | 0 <= i < |m|
      ensures l[i] == r[i]
    {
      WordsOfAt(a, data, i / 2);
    }
  }

  lemma WindowHolds(a: nat, window: nat, i: nat)
    requires window > 0 && a % window + i < window
    ensures InWindow(a + i, a, window)
  {
  }

  /** One word, at its own address. */
  method FillWord(fl: BpiFlash, addr: nat, i: nat, w: Word, ghost left: nat, ghost buf: map<nat, Word>)
    requires fl.ctrl == SELECTED && addr + i < 0x1_0000_0000 && fl.dev.window > 0
             && addr % fl.dev.window + i < fl.dev.window
    requires left > 0 && fl.dev.phase == Filling(addr, left, buf)
    modifies fl
    ensures fl.ctrl == SELECTED
    ensures fl.dev == old(fl.dev).(phase := if left == 1 then Armed(addr, buf[addr + i := w])
                                            else Filling(addr, left - 1, buf[addr + i := w]))
  {
    WindowHolds(addr, fl.dev.window, i);
    fl.WriteWord(addr + i, w);
  }

  /** The words go to the buffer in order, each at its own address. */
  method FillBuffer(fl: BpiFlash, addr: nat, data: seq<Byte>)
    requires fl.ctrl == SELECTED && |data| % 2 == 0 && |data| >= 2 && addr + |data| / 2 <= 0x1_0000_0000
    requires fl.dev.phase == Filling(addr, |data| / 2, map[]) && fl.dev.window > 0
    requires addr % fl.dev.window + |data| / 2 <= fl.dev.window
    modifies fl
    ensures fl.ctrl == SELECTED && fl.dev == old(fl.dev).(phase := Armed(addr, WordsOf(addr, data)))
  {
    var i, s := 0, 0;
    while i < |data| / 2
      invariant s == 2 * i <= |data| && fl.ctrl == SELECTED
      invariant fl.dev == old(fl.dev).(phase := fl.dev.phase)
      invariant fl.dev.phase == if 2 * i == |data| then Armed(addr, WordsOf(addr, data[..s]))
                                else Filling(addr, |data| / 2 - i, WordsOf(addr, data[..s]))
    {
      assert data[..s + 2][..s] == data[..s];
      FillWord(fl, addr, i, Word(data[s], data[s + 1]), |data| / 2 - i, WordsOf(addr, data[..s]));
      i, s := i + 1, s + 2;
    }
    assert data[..s] == data;
  }

  // ---------------------------------------------------------------- one buffered program

  /** The commands that the driver sends before and after the words. */
  function SetupCommand(f: Family): Byte { match f case Intel => 0xE8 case Micron => 0xE9 case Amd => 0x25 }
  function ConfirmCommand(f: Family): Byte { match f case Intel => 0xD0 case Micron => 0xD0 case Amd => 0x29 }

  /** The count is one less than the number of words, sent as its low 16 bits. */
  function CountOf(n: nat): nat { if n == 0 then 0xFFFF else (n - 1) % 0x1_0000 }

  method CountWord(n: nat) returns (w: Word)
    ensures WordValue(w) == CountOf(n)
  {
    w := ToWord(CountOf(n));
    ToWordValue(CountOf(n));
  }

  method SendCount(fl: BpiFlash, addr: nat, n: nat)
    requires fl.ctrl == SELECTED && fl.dev.phase == Counting(addr) && n <= fl.dev.window < 0x1_0000
    modifies fl`ctrl, fl`dev, fl`out, fl`dataReg
    ensures fl.ctrl == SELECTED
    ensures n > 0 ==> fl.dev == old(fl.dev).(phase := Filling(addr, n, map[]))
    ensures n == 0 ==> fl.dev == Rejected(old(fl.dev))
  {
    var w := CountWord(n);
    fl.WriteCur(w);
  }

  /** Intel and Micron: set up and announce n words. */
  method SetupBuffer(fl: BpiFlash, addr: nat, n: nat)
    requires Settled(fl) && fl.dev.family != Amd && addr < 0x1_0000_0000 && n <= fl.dev.window
    modifies fl
    ensures fl.ctrl == SELECTED && fl.addrReg == addr
    ensures n > 0 ==> fl.dev == old(fl.dev).(phase := Filling(addr, n, map[]), status := true)
    ensures n == 0 ==> fl.dev == old(fl.dev).(status := true, err := 0x30)
  {
    fl.SetAddr(addr);
    fl.WriteCur(Cmd(SetupCommand(fl.dev.family)));
    SendCount(fl, addr, n);
  }

  method Unlock(fl: BpiFlash)
    requires Quiet(fl) && fl.dev.family == Amd && fl.dev.busy == 0
    modifies fl
    ensures fl.ctrl == SELECTED && fl.dev == old(fl.dev).(phase := Unlocked2)
  {
    fl.WriteWord(0x555, Cmd(0xAA));
    fl.WriteWord(0x2AA, Cmd(0x55));
  }

  method AbortReset(fl: BpiFlash)
    requires Quiet(fl) && fl.dev.family == Amd && fl.dev.busy == 0
    modifies fl
    ensures Quiet(fl) && fl.ctrl == SELECTED && fl.dev == old(fl.dev).(err := 0)
  {
    Unlock(fl);
    fl.WriteWord(0x555, Cmd(0xF0));
  }

  method SetupBufferAmd(fl: BpiFlash, addr: nat, n: nat)
    requires Valid(fl) && fl.dev.family == Amd && addr < 0x1_0000_0000 && n <= fl.dev.window
    modifies fl
    ensures fl.ctrl == SELECTED && fl.addrReg == addr
    ensures n > 0 ==> fl.dev == old(fl.dev).(phase := Filling(addr, n, map[]))
    ensures n == 0 ==> fl.dev == old(fl.dev).(err := 0x02)
  {
    Unlock(fl);
    fl.WriteWord(addr, Cmd(SetupCommand(Amd)));
    SendCount(fl, addr, n);
  }

  /** What no operation changes about a device. */
  ghost predicate SameDevice(d: Dev, e: Dev) {
    && d.family == e.family && d.window == e.window && d.regions == e.regions && d.fails == e.fails
        && d.latency == e.latency
    && |d.mem| == |e.mem|
  }

  method FinishStatus(fl: BpiFlash, addr: nat, ghost buf: map<nat, Word>) returns (ret: int)
    requires fl.ctrl == SELECTED && fl.dev.family != Amd && addr < 0x1_0000_0000 && fl.dev.busy == 0
    requires (fl.dev.phase == Armed(addr, buf) && fl.dev.err in {0, 0x10, 0x20, 0x30})
             || (fl.dev.phase == Idle && fl.dev.err == 0x30)
    modifies fl
    ensures Quiet(fl) && (ret == 0 || ret == -1) && fl.dev.err in {0, 0x10, 0x20, 0x30}
    ensures ret == 0 <==> old(fl.dev).err == 0 && !fl.dev.fails
    ensures fl.dev == old(fl.dev).(phase := Idle, status := fl.dev.family == Intel, err := fl.dev.err,
              mem := fl.dev.mem,
                                   erasing := fl.dev.erasing)
    ensures (ret == 0 <==> fl.dev.err == 0) && (!fl.dev.fails ==> fl.dev.err == old(fl.dev).err)
    ensures fl.dev.mem == if old(fl.dev).phase.Armed? && !fl.dev.fails then Burnt(old(fl.dev).mem, buf)
                          else old(fl.dev).mem
  {
    StartProgram(fl, addr, buf);
    ret := EndStatus(fl);
  }

  /** The confirm command programs an armed buffer, and is ignored by a device that has rejected the count. */
  method StartProgram(fl: BpiFlash, addr: nat, ghost buf: map<nat, Word>)
    requires fl.ctrl == SELECTED && fl.dev.family != Amd && addr < 0x1_0000_0000 && fl.dev.busy == 0
    requires fl.dev.phase == Armed(addr, buf) || fl.dev.phase == Idle
    modifies fl
    ensures Quiet(fl) && fl.dev == if old(fl.dev).phase == Idle then old(fl.dev) else Confirmed(old(fl.dev), buf)
  {
    fl.SetAddr(addr);
    fl.WriteCur(Cmd(ConfirmCommand(fl.dev.family)));
  }

  method EndStatus(fl: BpiFlash) returns (ret: int)
    requires Quiet(fl) && fl.dev.family != Amd && fl.dev.err in {0, 0x10, 0x20, 0x30}
    modifies fl`ctrl, fl`dev, fl`out, fl`dataReg
    ensures Quiet(fl) && ret == (if fl.dev.err == 0 then 0 else -1)
    ensures fl.dev == old(fl.dev).(status := fl.dev.family == Intel, busy := 0)
  {
    var failed := WaitStatus(fl);
    if fl.dev.family == Micron {
      fl.WriteCur(Cmd(0xFF));
    }
    ret := if failed then -1 else 0;
  }

  method FinishToggle(fl: BpiFlash, addr: nat, ghost buf: map<nat, Word>) returns (ret: int)
    requires fl.ctrl == SELECTED && fl.dev.family == Amd && addr < 0x1_0000_0000 && fl.dev.busy == 0
    requires (fl.dev.phase == Armed(addr, buf) && fl.dev.err == 0) || (fl.dev.phase == Idle && fl.dev.err == 0x02)
    modifies fl
    ensures Quiet(fl) && (ret == 0 || ret == -1)
    ensures ret == 0 <==> old(fl.dev).err == 0 && !fl.dev.fails
    ensures fl.dev == old(fl.dev).(phase := Idle, toggle := fl.dev.toggle, err := 0, mem := fl.dev.mem,
              erasing := fl.dev.erasing)
    ensures fl.dev.mem == if ret == 0 then Burnt(old(fl.dev).mem, buf) else old(fl.dev).mem
  {
    fl.SetAddr(addr);
    fl.WriteCur(Cmd(ConfirmCommand(Amd)));
    var r := WaitToggle(fl, 0x22);
    if r & 0x22 != 0 {
      AbortReset(fl);
      return -1;
    }
    ret := 0;
  }

  method ProgramStatus(fl: BpiFlash, addr: nat, n: nat, src: seq<Byte>) returns (ret: int)
    requires Settled(fl) && fl.dev.family != Amd && |src| == 2 * n && 2 * (addr + n) <= |fl.dev.mem|
    requires addr < 0x1_0000_0000 && addr % fl.dev.window + n <= fl.dev.window
    modifies fl
    ensures Settled(fl) && SameDevice(fl.dev, old(fl.dev)) && (ret == 0 || ret == -1)
    ensures ErrorsAfter(fl.dev, old(fl.dev), ret) && fl.dev.status == (fl.dev.family == Intel)
    ensures ret == 0 <==> n > 0 && !fl.dev.fails && old(fl.dev).err == 0
    ensures fl.dev.mem == if n > 0 && !fl.dev.fails then Programmed(old(fl.dev).mem, 2 * addr, src) else old(fl.dev).mem
  {
    BurntWords(fl.dev.mem, addr, src);
    SetupBuffer(fl, addr, n);
    if n > 0 {
      FillBuffer(fl, addr, src);
    }
    ret := FinishStatus(fl, addr, WordsOf(addr, src));
  }

  method ProgramToggle(fl: BpiFlash, addr: nat, n: nat, src: seq<Byte>) returns (ret: int)
    requires Valid(fl) && fl.dev.family == Amd && |src| == 2 * n && 2 * (addr + n) <= |fl.dev.mem|
    requires addr < 0x1_0000_0000 && addr % fl.dev.window + n <= fl.dev.window
    modifies fl
    ensures Valid(fl) && SameDevice(fl.dev, old(fl.dev)) && (ret == 0 || ret == -1)
    ensures ret == 0 <==> n > 0 && !fl.dev.fails
    ensures fl.dev.mem == if ret == 0 then Programmed(old(fl.dev).mem, 2 * addr, src) else old(fl.dev).mem
  {
    BurntWords(fl.dev.mem, addr, src);
    SetupBufferAmd(fl, addr, n);
    if n > 0 {
      FillBuffer(fl, addr, src);
    }
    ret := FinishToggle(fl, addr, WordsOf(addr, src));
  }

  /** The buffered program of each command set: n words of src at word address addr, or nothing.  If an error stands
      already, the words are programmed and the driver reports a failure. */
  method BufferedProgram(fl: BpiFlash, addr: nat, n: nat, src: seq<Byte>) returns (ret: int)
    requires Settled(fl) && |src| == 2 * n && 2 * (addr + n) <= |fl.dev.mem| && addr < 0x1_0000_0000
    requires addr % fl.dev.window + n <= fl.dev.window
    modifies fl
    ensures Settled(fl) && SameDevice(fl.dev, old(fl.dev)) && (ret == 0 || ret == -1)
    ensures ErrorsAfter(fl.dev, old(fl.dev), ret)
            && (fl.dev.family != Amd ==> fl.dev.status == (fl.dev.family == Intel))
    ensures ret == 0 <==> n > 0 && !fl.dev.fails && old(fl.dev).err == 0
    ensures fl.dev.mem == if n > 0 && !fl.dev.fails then Programmed(old(fl.dev).mem, 2 * addr, src) else old(fl.dev).mem
  {
    if fl.dev.family == Amd {
      ret := ProgramToggle(fl, addr, n, src);
    } else {
      ret := ProgramStatus(fl, addr, n, src);
    }
  }
}
