/** A parallel NOR flash with a 16-bit bus, seen from its pins, for the three command sets the driver knows.  A buffered
    program collects words inside one window aligned to the write buffer and clears bits when it is confirmed; an erase
    sets the bits of one block. */
module BpiDevice {
  import opened Bytes
  import opened NorMemory

  datatype Word = Word(lo: Byte, hi: Byte)

  function WordValue(w: Word): nat { FromByte(w.lo) + 256 * FromByte(w.hi) }

  /** The low 16 bits of a number. */
  function ToWord(x: nat): Word { Word(ToByte(x % 256), ToByte(x / 256 % 256)) }

  lemma ToWordValue(x: nat)
    requires x < 0x1_0000
    ensures WordValue(ToWord(x)) == x
  {
    var lo, hi := x % 256, x / 256;
    assert hi < 256 && hi % 256 == hi && x == lo + 256 * hi;
    WordOf(lo, hi);
  }

  lemma WordOf(lo: nat, hi: nat)
    requires lo < 256 && hi < 256
    ensures WordValue(Word(ToByte(lo), ToByte(hi))) == lo + 256 * hi
  {
    FromTo(lo);
    FromTo(hi);
  }

  function Cmd(b: Byte): Word { Word(b, 0) }

  /** One value of the control register. */
  datatype Ctrl = Ctrl(ceN: bool, oeN: bool, weN: bool, advN: bool, dqOe: bool, regionOe: bool)

  datatype Family = Intel | Micron | Amd

  datatype Phase =
    | Idle
    | Unlocked1
    | Unlocked2
    | Counting(base: nat)
    | Filling(base: nat, left: nat, buf: map<nat, Word>)
    | Armed(base: nat, buf: map<nat, Word>)
    | LockSetup
    | EraseSetup
    | ErasePrepared
    | EraseUnlocked1
    | EraseUnlocked2

  /** A range of the device that is divided into blocks of one size. */
  datatype Region = Region(start: nat, end: nat, block: nat)

  /** `window` is the write buffer in words; `fails` makes every program and erase operation fail; `latency` is how
      many reads a program keeps the device busy, and how many the timer before an erase and the erase itself.
      `err` holds the error bits: of the status register for Intel and Micron, of the toggling status word for AMD.
      `erasing` says that the last operation was an erase.  `open` is the addresses of the blocks that are not locked:
      Intel and Micron devices erase no other ones. */
  datatype Dev = Dev(family: Family, mem: seq<Byte>, window: nat, regions: seq<Region>, fails: bool, latency: nat,
                     phase: Phase, status: bool, busy: nat, err: Byte, toggle: bool, erasing: bool, open: set<nat>)

  // ---------------------------------------------------------------- memory

  /** Program the collected words: bits are cleared, other words keep their contents. */
  function Burnt(m: seq<Byte>, buf: map<nat, Word>): (r: seq<Byte>)
    ensures |r| == |m|
  {
    seq(|m|, i requires 0 <= i < |m| =>
      if i / 2 in buf then m[i] & (if i % 2 == 0 then buf[i / 2].lo else buf[i / 2].hi) else m[i])
  }

  function WordAt(m: seq<Byte>, a: nat): Word {
    if 2 * a + 1 < |m| then Word(m[2 * a], m[2 * a + 1]) else Word(ERASED, ERASED)
  }

  /** The window of `base` contains the word at `a`. */
  predicate InWindow(a: nat, base: nat, window: nat)
    requires window > 0
  {
    base - base % window <= a < base - base % window + window
  }

  /** The size of the block at an address, or 0 if no region contains it. */
  function BlockSize(rs: seq<Region>, a: nat): nat {
    if rs == [] then 0
    else if rs[0].start <= a < rs[0].end then rs[0].block
    else BlockSize(rs[1..], a)
  }

  // ---------------------------------------------------------------- reading

  predicate Toggling(d: Dev) { d.family == Amd && (d.busy > 0 || d.err != 0) }

  /** The error bits, and bit 3 once the timer before an erase has run out. */
  function Shown(d: Dev): Byte {
    (if d.busy > 0 then 0 else d.err) | (if d.erasing && d.busy <= d.latency then 0x08 else 0)
  }

  function ReadOut(d: Dev, a: nat): Word {
    if d.family == Amd then
      if Toggling(d) then Word((if d.toggle then 0x40 else 0) | Shown(d), 0) else WordAt(d.mem, a)
    else if d.status then Word(if d.busy > 0 then 0 else 0x80 | d.err, 0)
    else WordAt(d.mem, a)
  }

  /** Every read cycle lets time pass. */
  function AfterRead(d: Dev): Dev {
    d.(busy := if d.busy > 0 then d.busy - 1 else 0, toggle := if Toggling(d) then !d.toggle else d.toggle)
  }

  // ---------------------------------------------------------------- writing

  /** The count of words: more than the buffer holds is an error. */
  function Counted(d: Dev, base: nat, w: Word): Dev {
    if WordValue(w) < d.window then d.(phase := Filling(base, WordValue(w) + 1, map[])) else Rejected(d)
  }

  function Rejected(d: Dev): Dev { d.(phase := Idle, err := if d.family == Amd then 0x02 else 0x30) }

  /** A data word: one outside the window is an error. */
  function Filled(d: Dev, base: nat, left: nat, buf: map<nat, Word>, a: nat, w: Word): Dev {
    if d.window > 0 && InWindow(a, base, d.window) then
      d.(phase := if left <= 1 then Armed(base, buf[a := w]) else Filling(base, left - 1, buf[a := w]))
    else Rejected(d)
  }

  function Confirmed(d: Dev, buf: map<nat, Word>): Dev {
    if d.fails then
      d.(phase := Idle, busy := d.latency, erasing := false, err := if d.family == Amd then 0x20 else 0x10)
    else d.(phase := Idle, busy := d.latency, erasing := false, mem := Burnt(d.mem, buf))
  }

  /** The address of the block that contains the word at `a`. */
  function BlockStart(rs: seq<Region>, a: nat): nat {
    var size := BlockSize(rs, 2 * a);
    if size == 0 then 2 * a else 2 * a - 2 * a % size
  }

  /** The block that contains the word at `a` is unlocked. */
  function Opened(d: Dev, a: nat): Dev { d.(open := d.open + {BlockStart(d.regions, a)}) }

  predicate Locked(d: Dev, a: nat) { d.family != Amd && BlockStart(d.regions, a) !in d.open }

  /** The block that contains the word at `a` is erased. */
  function BlockErased(d: Dev, a: nat): Dev {
    var size := BlockSize(d.regions, 2 * a);
    var e := d.(phase := Idle, busy := 2 * d.latency, erasing := true);
    if d.fails || size == 0 || Locked(d, a) then e.(err := 0x20)
    else e.(mem := Erased(d.mem, BlockStart(d.regions, a), size))
  }

  /** The commands that the device takes for the start and the confirmation of a buffered program. */
  function Setup(f: Family): Byte { match f case Intel => 0xE8 case Micron => 0xE9 case Amd => 0x25 }
  function Confirm(f: Family): Byte { match f case Intel => 0xD0 case Micron => 0xD0 case Amd => 0x29 }

  /** The parts of a buffered program that the command sets share. */
  function Buffering(d: Dev, a: nat, w: Word): Dev {
    match d.phase
    case Counting(base) => Counted(d, base, w)
    case Filling(base, left, buf) => Filled(d, base, left, buf, a, w)
    case Armed(_, buf) => if w == Cmd(Confirm(d.family)) then Confirmed(d, buf) else Rejected(d)
    case _ => d
  }

  function IntelCommand(d: Dev, a: nat, w: Word): Dev {
    if w == Cmd(0x70) then d.(status := true)
    else if d.busy > 0 then d
    else if w == Cmd(0xFF) then d.(status := false)
    else if w == Cmd(0x50) then d.(err := 0)
    else if w == Cmd(Setup(d.family)) then d.(phase := Counting(a), status := true)
    else if w == Cmd(0x60) then d.(phase := LockSetup, status := true)
    else if w == Cmd(0x20) then d.(phase := EraseSetup, status := true)
    else d
  }

  /** The second cycle of a two-cycle command: unlocking a block, or erasing it. */
  function IntelConfirm(d: Dev, a: nat, w: Word): Dev {
    if w != Cmd(0xD0) then Rejected(d)
    else if d.phase == EraseSetup then BlockErased(d, a)
    else Opened(d, a).(phase := Idle)
  }

  function AmdCommand(d: Dev, a: nat, w: Word): Dev {
    if d.busy > 0 then d
    else if d.phase == Idle && a == 0x555 && w == Cmd(0xAA) then d.(phase := Unlocked1)
    else if d.phase == Unlocked1 && a == 0x2AA && w == Cmd(0x55) then d.(phase := Unlocked2)
    else if d.phase == Unlocked2 && d.err == 0 && w == Cmd(Setup(Amd)) then d.(phase := Counting(a))
    else if d.phase == Unlocked2 && a == 0x555 && w == Cmd(0xF0) then d.(phase := Idle, err := 0)
    else if d.phase == Unlocked2 && d.err == 0 && a == 0x555 && w == Cmd(0x80) then d.(phase := ErasePrepared)
    else if d.phase == ErasePrepared && a == 0x555 && w == Cmd(0xAA) then d.(phase := EraseUnlocked1)
    else if d.phase == EraseUnlocked1 && a == 0x2AA && w == Cmd(0x55) then d.(phase := EraseUnlocked2)
    else if d.phase == EraseUnlocked2 && w == Cmd(0x30) then BlockErased(d, a)
    else d.(phase := Idle)
  }

  /** A write cycle. */
  function WriteCycle(d: Dev, a: nat, w: Word): Dev {
    if d.phase.Counting? || d.phase.Filling? || d.phase.Armed? then Buffering(d, a, w)
    else if d.family == Amd then AmdCommand(d, a, w)
    else if d.phase == LockSetup || d.phase == EraseSetup then IntelConfirm(d, a, w)
    else IntelCommand(d, a, w)
  }
}
