/** Erasing a parallel flash block by block, over regions with different block sizes. */
module BpiErase {
  import opened Bits
  import opened Bytes
  import opened NorMemory
  import opened BpiDevice
  import opened BpiDriver
  import opened BpiCommands
  import BpiTransfer
  import FlashErase

  // ---------------------------------------------------------------- erasing one block

  /** The device erases nothing, or the driver gives up because an error stands already. */
  predicate Refuses(d: Dev) { d.fails || d.err != 0 }

  /** The memory after a block has been erased, or after the device has refused. */
  ghost function AfterErase(d: Dev, a: nat): seq<Byte> {
    var size := BlockSize(d.regions, 2 * a);
    if Refuses(d) || size == 0 then d.mem else Erased(d.mem, 2 * a - 2 * a % size, size)
  }

  /** The status register of an idle device, in which an error of an earlier operation may still stand. */
  ghost predicate Idling(fl: BpiFlash)
    reads fl
  {
    Quiet(fl) && fl.dev.family != Amd && fl.dev.busy == 0 && fl.dev.err in {0, 0x10, 0x20, 0x30}
  }

  method UnlockBlock(fl: BpiFlash) returns (failed: bool)
    requires Idling(fl)
    modifies fl`ctrl, fl`dev, fl`out, fl`dataReg
    ensures Idling(fl) && fl.ctrl == SELECTED && fl.dev == Opened(old(fl.dev), fl.addrReg).(status := true)
    ensures failed <==> fl.dev.err != 0
  {
    fl.WriteCur(Cmd(0x60));
    fl.WriteCur(Cmd(0xD0));
    StatusBits(fl.dev.err);
    var s := ReadStatus(fl);
    failed := s & 0x30 != 0;
  }

  method EraseBlock(fl: BpiFlash) returns (failed: bool)
    requires Idling(fl) && fl.dev.err == 0
    modifies fl`ctrl, fl`dev, fl`out, fl`dataReg
    ensures Idling(fl) && fl.ctrl == SELECTED
            && fl.dev == BlockErased(old(fl.dev), fl.addrReg).(status := true, busy := 0)
    ensures failed <==> fl.dev.err != 0
  {
    fl.WriteCur(Cmd(0x20));
    fl.WriteCur(Cmd(0xD0));
    failed := WaitStatus(fl);
  }

  /** Unlock the block, and erase it unless an error stands. */
  method TryErase(fl: BpiFlash) returns (failed: bool)
    requires Idling(fl)
    modifies fl`ctrl, fl`dev, fl`out, fl`dataReg
    ensures Idling(fl) && fl.ctrl == SELECTED && (failed <==> fl.dev.err != 0)
    ensures fl.dev == var d := Opened(old(fl.dev), fl.addrReg);
                      if d.err != 0 then d.(status := true) else BlockErased(d, fl.addrReg).(status := true, busy := 0)
  {
    failed := UnlockBlock(fl);
    if !failed {
      failed := EraseBlock(fl);
    }
  }

  method ReadMode(fl: BpiFlash)
    requires Idling(fl)
    modifies fl`ctrl, fl`dev, fl`out, fl`dataReg
    ensures Idling(fl) && fl.dev == old(fl.dev).(status := old(fl.dev).status && fl.dev.family == Intel)
  {
    if fl.dev.family == Micron {
      fl.WriteCur(Cmd(0xFF));
    }
  }

  /** Intel and Micron: unlock the block, erase it and poll the status register.  An error that still stands there makes
      the driver give up before it erases anything. */
  method EraseStatus(fl: BpiFlash, addr: nat) returns (ret: int)
    requires Idling(fl) && addr < 0x1_0000_0000
    modifies fl
    ensures Idling(fl) && (ret == 0 || ret == -1)
    ensures old(fl.dev).err != 0 ==> ret == -1 && fl.dev == Opened(old(fl.dev), addr).(status := fl.dev.family == Intel)
    ensures old(fl.dev).err == 0 ==>
              fl.dev == BlockErased(Opened(old(fl.dev), addr), addr).(status := fl.dev.family == Intel, busy := 0)
    ensures ret == 0 <==> fl.dev.err == 0
  {
    fl.SetAddr(addr);
    var failed := TryErase(fl);
    ReadMode(fl);
    ret := if failed then -1 else 0;
  }

  lemma TimerBits(d: Dev)
    requires d.err in {0, 0x20}
    ensures ((if d.toggle then 0x40 else 0) | Shown(d)) & 0x08 != 0 <==> d.erasing && d.busy <= d.latency
    ensures ERASED & 0x08 != 0
  {
  }

  /** AMD: wait until bit 3 shows that the timer has run out and the erase has begun, or that it is over. */
  method WaitTimer(fl: BpiFlash)
    requires Quiet(fl) && fl.dev.family == Amd && fl.dev.erasing && fl.dev.err in {0, 0x20}
    requires fl.dev.err == 0 ==> WordAt(fl.dev.mem, fl.addrReg).lo == ERASED
    modifies fl`ctrl, fl`dev, fl`out
    ensures Quiet(fl) && fl.ctrl == SELECTED && fl.dev == old(fl.dev).(busy := fl.dev.busy, toggle := fl.dev.toggle)
    ensures fl.dev.busy <= fl.dev.latency
  {
    TimerBits(fl.dev);
    var w := fl.ReadCur();
    while w.lo & 0x08 == 0
      invariant Quiet(fl) && fl.ctrl == SELECTED && fl.dev == old(fl.dev).(busy := fl.dev.busy, toggle := fl.dev.toggle)
      invariant w.lo & 0x08 != 0 ==> fl.dev.busy <= fl.dev.latency
      decreases fl.dev.busy, w.lo & 0x08 == 0
    {
      TimerBits(fl.dev);
      w := fl.ReadCur();
    }
  }

  method UnlockErase(fl: BpiFlash)
    requires (fl.ctrl == SELECTED || fl.ctrl == DESELECTED) && fl.dev.family == Amd && fl.dev.busy == 0
    requires fl.dev.phase == ErasePrepared
    modifies fl
    ensures fl.ctrl == SELECTED && fl.dev == old(fl.dev).(phase := EraseUnlocked2)
  {
    fl.WriteWord(0x555, Cmd(0xAA));
    fl.WriteWord(0x2AA, Cmd(0x55));
  }

  method PrepareErase(fl: BpiFlash)
    requires Valid(fl) && fl.dev.family == Amd
    modifies fl
    ensures fl.ctrl == SELECTED && fl.dev == old(fl.dev).(phase := EraseUnlocked2)
  {
    Unlock(fl);
    fl.WriteWord(0x555, Cmd(0x80));
    UnlockErase(fl);
  }

  method CommandErase(fl: BpiFlash, addr: nat)
    requires Valid(fl) && fl.dev.family == Amd && addr < 0x1_0000_0000
    modifies fl
    ensures fl.ctrl == SELECTED && fl.addrReg == addr && fl.dev == BlockErased(old(fl.dev), addr)
  {
    PrepareErase(fl);
    fl.WriteWord(addr, Cmd(0x30));
  }

  lemma ErasedShows(m: seq<Byte>, a: nat, size: nat)
    requires size > 0
    ensures WordAt(Erased(m, 2 * a - 2 * a % size, size), a).lo == ERASED
  {
  }

  method EraseToggle(fl: BpiFlash, addr: nat) returns (ret: int)
    requires Valid(fl) && fl.dev.family == Amd && addr < 0x1_0000_0000
    modifies fl
    ensures Quiet(fl) && (ret == 0 || ret == -1)
    ensures fl.dev == BlockErased(old(fl.dev), addr).(toggle := fl.dev.toggle, busy := 0, err := 0)
    ensures ret == 0 <==> BlockErased(old(fl.dev), addr).err == 0
  {
    CommandErase(fl, addr);
    if fl.dev.err == 0 {
      ErasedShows(old(fl.dev.mem), addr, BlockSize(fl.dev.regions, 2 * addr));
    }
    WaitTimer(fl);
    var r := WaitToggle(fl, 0x20);
    if r & 0x20 != 0 {
      AbortReset(fl);
      return -1;
    }
    ret := 0;
  }

  /** The block erase of each command set. */
  method SectorErase(fl: BpiFlash, addr: nat) returns (ret: int)
    requires Settled(fl) && addr < 0x1_0000_0000
    modifies fl
    ensures Settled(fl) && SameDevice(fl.dev, old(fl.dev)) && (ret == 0 || ret == -1)
    ensures (ret == 0 || fl.dev.family == Amd ==> fl.dev.err == 0)
            && (fl.dev.family != Amd && ret != 0 ==> fl.dev.err != 0)
    ensures ret == 0 <==> !Refuses(old(fl.dev)) && BlockSize(fl.dev.regions, 2 * addr) != 0
    ensures fl.dev.mem == AfterErase(old(fl.dev), addr)
  {
    if fl.dev.family == Amd {
      ret := EraseToggle(fl, addr);
    } else {
      ret := EraseStatus(fl, addr);
    }
  }

  // ---------------------------------------------------------------- regions and blocks

  predicate Blocks(r: Region) {
    r.start < r.end && r.block >= 1 && r.block % 2 == 0 && r.start % r.block == 0 && r.end % r.block == 0
  }

  /** One or two regions, of whole blocks, make up the device. */
  ghost predicate Divided(rs: seq<Region>, size: nat) {
    && 1 <= |rs| <= 2 && rs[0].start == 0 && rs[|rs| - 1].end == size && (|rs| == 2 ==> rs[1].start == rs[0].end)
    && forall k | 0 <= k < |rs| :: Blocks(rs[k]) && IsPow2(rs[k].block)
  }

  /** A block starts here, or the device ends. */
  predicate Boundary(rs: seq<Region>, size: nat, x: nat) {
    x == size || (BlockSize(rs, x) != 0 && x % BlockSize(rs, x) == 0)
  }

  /** How many bytes are erased before the driver finds that the range does not consist of whole blocks. */
  function Erasable(rs: seq<Region>, a: nat, n: nat): (r: nat)
    ensures r <= n
    decreases n
  {
    var s := BlockSize(rs, a);
    if s == 0 || a % s != 0 || n < s then 0 else s + Erasable(rs, a + s, n - s)
  }

  lemma BlockSizeIn(rs: seq<Region>, k: nat, a: nat)
    requires k < |rs| <= 2 && rs[k].start <= a < rs[k].end && (k == 1 ==> a >= rs[0].end)
    ensures BlockSize(rs, a) == rs[k].block
  {
    if k == 1 {
      assert BlockSize(rs, a) == BlockSize(rs[1..], a);
    }
  }

  /** The region of an address: its block size holds everywhere in it, and its end is a boundary. */
  lemma RegionOf(rs: seq<Region>, size: nat, a: nat) returns (r: Region)
    requires Divided(rs, size) && a < size
    ensures r in rs && Blocks(r) && IsPow2(r.block) && r.start <= a < r.end <= size && Boundary(rs, size, r.end)
    ensures forall x: nat | r.start <= x < r.end :: BlockSize(rs, x) == r.block
  {
    var k := if a < rs[0].end then 0 else 1;
    r := rs[k];
    forall x: nat | r.start <= x < r.end
      ensures BlockSize(rs, x) == r.block
    {
      BlockSizeIn(rs, k, x);
    }
    if r.end < size {
      BlockSizeIn(rs, 1, r.end);
    }
  }

  lemma NextMultiple(u: int, m: nat)
    requires m >= 1
    ensures u * m + m == (u + 1) * m && (u * m + m) % m == 0
  {
    ModUnique(u * m + m, m, u + 1, 0);
  }

  lemma MultiplesApart(x: nat, y: nat, m: nat)
    requires m >= 1 && x % m == 0 && y % m == 0 && x < y
    ensures x + m <= y && (x + m) % m == 0
  {
    var u, v := x / m, y / m;
    FurtherMultiple(u, v, m);
    NextMultiple(u, m);
  }

  lemma FurtherMultiple(u: nat, v: nat, m: nat)
    requires u * m < v * m
    ensures u * m + m <= v * m
  {
    if v <= u {
      MulMono(v, u, m);
    }
    MulMono(u + 1, v, m);
    assert (u + 1) * m == u * m + m;
  }

  /** From a boundary, the next one is one block on. */
  lemma NextBoundary(rs: seq<Region>, size: nat, a: nat) returns (s: nat)
    requires Divided(rs, size) && a < size && Boundary(rs, size, a)
    ensures s == BlockSize(rs, a) && s >= 1 && s % 2 == 0 && a % s == 0 && a + s <= size && Boundary(rs, size, a + s)
    ensures forall x: nat | a < x < a + s :: !Boundary(rs, size, x)
  {
    var r := RegionOf(rs, size, a);
    s := r.block;
    MultiplesApart(a, r.end, s);
    forall x: nat | a < x < a + s
      ensures !Boundary(rs, size, x)
    {
      if x % s == 0 {
        MultiplesApart(a, x, s);
      }
    }
  }

  /** All of a range can be erased exactly when it starts and ends at a boundary. */
  lemma {:induction false} ErasableIff(rs: seq<Region>, size: nat, a: nat, n: nat)
    requires Divided(rs, size) && a + n <= size
    ensures Erasable(rs, a, n) == n <==> n == 0 || (Boundary(rs, size, a) && Boundary(rs, size, a + n))
    decreases n
  {
    if n > 0 && Boundary(rs, size, a) {
      var s := NextBoundary(rs, size, a);
      if n >= s {
        ErasableIff(rs, size, a + s, n - s);
      }
    }
  }

  lemma ErasableStep(rs: seq<Region>, a: nat, n: nat, s: nat, b: nat)
    requires s == BlockSize(rs, a) && s >= 1 && a % s == 0 && n >= s && b == a + s
    ensures Erasable(rs, a, n) == s + Erasable(rs, b, n - s)
  {
  }

  lemma ErasableNothing(rs: seq<Region>, size: nat, a: nat, n: nat)
    requires a < size && !Boundary(rs, size, a)
    ensures Erasable(rs, a, n) == 0
  {
  }

  /** Erasing up to a boundary and then the rest is erasing the whole range. */
  lemma {:induction false} ErasableSplit(rs: seq<Region>, size: nat, a: nat, k: nat, n: nat, c: nat)
    requires Divided(rs, size) && a + n <= size && k <= n && Boundary(rs, size, a) && Boundary(rs, size, c)
             && c == a + k
    ensures Erasable(rs, a, n) == k + Erasable(rs, c, n - k)
    decreases k
  {
    if k > 0 {
      var s := NextBoundary(rs, size, a);
      var b := a + s;
      assert !(a < c < b);
      ErasableSplit(rs, size, b, k - s, n - s, c);
      ErasableStep(rs, a, n, s, b);
    }
  }

  // ---------------------------------------------------------------- erasing a range

  /** The driver's table describes the device; its block size divides the device, and no block is larger. */
  ghost predicate Mapped(fl: BpiFlash)
    reads fl
  {
    && Divided(fl.dev.regions, |fl.dev.mem|) && fl.regions == fl.dev.regions && IsPow2(fl.eraseBlockSize)
    && fl.eraseBlockSize >= 1 && |fl.dev.mem| % fl.eraseBlockSize == 0
    && forall k | 0 <= k < |fl.regions| :: fl.regions[k].block <= fl.eraseBlockSize
  }

  /** The search for the region of an address. */
  method FindBlockSize(rs: seq<Region>, a: nat) returns (size: nat)
    ensures size == BlockSize(rs, a)
  {
    size := 0;
    var k := 0;
    while k < |rs|
      invariant k <= |rs| && BlockSize(rs, a) == BlockSize(rs[k..], a)
    {
      if rs[k].start <= a < rs[k].end {
        size := rs[k].block;
        break;
      }
      k := k + 1;
    }
  }

  /** How much of a range an erase reaches.  The name keeps the recursion of `Erasable` out of the proofs of the
      loops. */
  ghost function Extent(rs: seq<Region>, a: nat, n: nat): nat { Erasable(rs, a, n) }

  /** How far an erase of a range has come. */
  ghost predicate ErasedSoFar(m: seq<Byte>, m0: seq<Byte>, rs: seq<Region>, refuses: bool, addr: nat, len: nat, a: nat,
                              n: nat) {
    && addr <= a && a + n == addr + len && m == Erased(m0, addr, a - addr)
    && Extent(rs, addr, len) == a - addr + Extent(rs, a, n) && (refuses ==> a == addr)
  }

  /** How an erase of a range ends. */
  ghost predicate EraseEnded(ret: int, m: seq<Byte>, m0: seq<Byte>, rs: seq<Region>, refuses: bool, addr: nat,
                             len: nat) {
    && (ret == 0 <==> len == 0 || (!refuses && Extent(rs, addr, len) == len))
    && m == Erased(m0, addr, if refuses then 0 else Extent(rs, addr, len))
  }

  /** The next block, if there is one and the range holds all of it. */
  method EraseNext(fl: BpiFlash, a: nat, n: nat) returns (ret: int, s: nat)
    requires Settled(fl) && Mapped(fl) && n > 0 && a + n <= |fl.dev.mem|
    modifies fl
    ensures Settled(fl) && SameDevice(fl.dev, old(fl.dev)) && (ret == 0 || ret == -1)
            && s == BlockSize(fl.dev.regions, a)
    ensures ret == 0 ==> s >= 1 && a % s == 0 && s <= n && !Refuses(old(fl.dev)) && fl.dev.err == 0
    ensures ret == 0 ==> fl.dev.mem == Erased(old(fl.dev).mem, a, s)
    ensures ret != 0 ==> fl.dev.mem == old(fl.dev).mem && (Refuses(old(fl.dev)) || Erasable(fl.dev.regions, a, n) == 0)
  {
    s := FindBlockSize(fl.regions, a);
    if s == 0 {
      return -1, s;
    }
    ghost var r := RegionOf(fl.regions, |fl.dev.mem|, a);
    MaskIsMod(a, s);
    if And(a, s - 1) != 0 || n < s {
      return -1, s;
    }
    BlockIsEven(a, s);
    ret := SectorErase(fl, a / 2);
  }

  lemma BlockIsEven(a: nat, s: nat)
    requires s >= 1 && s % 2 == 0 && a % s == 0
    ensures a % 2 == 0 && 2 * (a / 2) == a
  {
    var h := s / 2;
    HalfMod(a, h);
  }

  lemma EraseStarts(m: seq<Byte>, rs: seq<Region>, refuses: bool, addr: nat, len: nat)
    ensures ErasedSoFar(m, m, rs, refuses, addr, len, addr, len)
  {
    ErasedNothing(m, addr);
  }

  /** A block has been erased. */
  lemma EraseAdvances(m1: seq<Byte>, m: seq<Byte>, m0: seq<Byte>, rs: seq<Region>, addr: nat, len: nat, a: nat, n: nat,
                      s: nat)
    requires ErasedSoFar(m, m0, rs, false, addr, len, a, n) && s == BlockSize(rs, a) && s >= 1 && a % s == 0 && s <= n
    requires m1 == Erased(m, a, s)
    ensures ErasedSoFar(m1, m0, rs, false, addr, len, a + s, n - s)
  {
    ErasableStep(rs, a, n, s, a + s);
    ErasedTwice(m0, addr, a - addr, s);
  }

  lemma EraseStops(m: seq<Byte>, m0: seq<Byte>, rs: seq<Region>, refuses: bool, addr: nat, len: nat, a: nat, n: nat)
    requires ErasedSoFar(m, m0, rs, refuses, addr, len, a, n) && n > 0 && (refuses || Erasable(rs, a, n) == 0)
    ensures EraseEnded(-1, m, m0, rs, refuses, addr, len)
  {
  }

  /** bpi_flash_erase: the blocks of the range, up to the first place where it does not consist of whole blocks. */
  method Erase(fl: BpiFlash, addr: nat, len: nat) returns (ret: int)
    requires Settled(fl) && Mapped(fl) && addr + len <= |fl.dev.mem|
    modifies fl
    ensures Settled(fl) && Mapped(fl) && SameDevice(fl.dev, old(fl.dev)) && (ret == 0 || ret == -1)
    ensures ret == 0 ==> fl.dev.err == old(fl.dev).err
    ensures EraseEnded(ret, fl.dev.mem, old(fl.dev).mem, fl.dev.regions, Refuses(old(fl.dev)), addr, len)
  {
    ghost var d, rs, refuses := fl.dev, fl.dev.regions, Refuses(fl.dev);
    var a, n := addr, len;
    EraseStarts(d.mem, rs, refuses, addr, len);
    while n > 0
      invariant Settled(fl) && Mapped(fl) && SameDevice(fl.dev, d) && fl.dev.err == d.err
      invariant ErasedSoFar(fl.dev.mem, d.mem, rs, refuses, addr, len, a, n)
    {
      ghost var m := fl.dev.mem;
      var s;
      ret, s := EraseNext(fl, a, n);
      if ret != 0 {
        EraseStops(m, d.mem, rs, refuses, addr, len, a, n);
        Release(fl);
        return -1;
      }
      EraseAdvances(fl.dev.mem, m, d.mem, rs, addr, len, a, n, s);
      a, n := a + s, n - s;
    }
    Release(fl);
    ret := 0;
  }

  // ---------------------------------------------------------------- erasing in pieces

  /** A multiple of a step that is at least the largest block is a boundary. */
  lemma StepBoundary(rs: seq<Region>, size: nat, step: nat, x: nat)
    requires Divided(rs, size) && IsPow2(step) && x < size && (forall k | 0 <= k < |rs| :: rs[k].block <= step)
    requires step >= 1 && x % step == 0
    ensures Boundary(rs, size, x)
  {
    var r := RegionOf(rs, size, x);
    Pow2Divides(r.block, step, x);
  }

  lemma PieceDone(m1: seq<Byte>, m: seq<Byte>, m0: seq<Byte>, rs: seq<Region>, size: nat, addr: nat, len: nat, a: nat,
                  n: nat, seg: nat)
    requires Divided(rs, size) && a + n <= size && ErasedSoFar(m, m0, rs, false, addr, len, a, n) && 0 < seg <= n
    requires EraseEnded(0, m1, m, rs, false, a, seg)
    ensures ErasedSoFar(m1, m0, rs, false, addr, len, a + seg, n - seg)
  {
    ErasableIff(rs, size, a, seg);
    ErasableSplit(rs, size, a, seg, n, a + seg);
    ErasedTwice(m0, addr, a - addr, seg);
  }

  lemma PieceStops(ret: int, m1: seq<Byte>, m: seq<Byte>, m0: seq<Byte>, rs: seq<Region>, size: nat, refuses: bool,
                   addr: nat, len: nat,
                   a: nat, n: nat, seg: nat)
    requires Divided(rs, size) && a + n <= size && ErasedSoFar(m, m0, rs, refuses, addr, len, a, n) && 0 < seg <= n
    requires ret != 0 && EraseEnded(ret, m1, m, rs, refuses, a, seg) && (seg == n || Boundary(rs, size, a + seg))
    ensures EraseEnded(ret, m1, m0, rs, refuses, addr, len)
  {
    ErasedTwice(m0, addr, a - addr, if refuses then 0 else Erasable(rs, a, seg));
    if !refuses && seg < n {
      ErasableIff(rs, size, a, seg);
      ErasableNothing(rs, size, a, seg);
      ErasableNothing(rs, size, a, n);
    }
  }

  /** How one round ends. */
  ghost predicate RoundEnded(ret: int, m1: seq<Byte>, m0: seq<Byte>, rs: seq<Region>, refuses: bool, addr: nat,
                             len: nat,
                             a: nat, n: nat) {
    if ret == 0 then ErasedSoFar(m1, m0, rs, refuses, addr, len, a, n)
          else EraseEnded(ret, m1, m0, rs, refuses, addr, len)
  }

  lemma PieceEnds(ret: int, m1: seq<Byte>, m: seq<Byte>, m0: seq<Byte>, rs: seq<Region>, size: nat, refuses: bool,
                  addr: nat, len: nat,
                  a: nat, n: nat, seg: nat, step: nat)
    requires Divided(rs, size) && a + n <= size && ErasedSoFar(m, m0, rs, refuses, addr, len, a, n) && 0 < seg <= n
    requires EraseEnded(ret, m1, m, rs, refuses, a, seg)
    requires step >= 1 && IsPow2(step) && (forall k | 0 <= k < |rs| :: rs[k].block <= step)
             && (seg == n || (a + seg) % step == 0)
    ensures RoundEnded(ret, m1, m0, rs, refuses, addr, len, a + seg, n - seg)
  {
    if ret == 0 {
      PieceDone(m1, m, m0, rs, size, addr, len, a, n, seg);
    } else {
      if seg < n {
        StepBoundary(rs, size, step, a + seg);
      }
      PieceStops(ret, m1, m, m0, rs, size, refuses, addr, len, a, n, seg);
    }
  }

  /** One round of the loop. */
  method ErasePiece(fl: BpiFlash, ghost addr: nat, ghost len: nat, a: nat, remain: nat, step: nat, ghost m0: seq<Byte>)
    returns (ret: int, seg: nat)
    requires Settled(fl) && Mapped(fl) && remain > 0 && a + remain <= |fl.dev.mem|
    requires IsPow2(step) && step >= fl.eraseBlockSize
    requires ErasedSoFar(fl.dev.mem, m0, fl.dev.regions, Refuses(fl.dev), addr, len, a, remain)
    modifies fl
    ensures Settled(fl) && Mapped(fl) && SameDevice(fl.dev, old(fl.dev)) && (ret == 0 || ret == -1)
    ensures 0 < seg <= remain && (ret == 0 ==> fl.dev.err == old(fl.dev).err)
    ensures RoundEnded(ret, fl.dev.mem, m0, fl.dev.regions, Refuses(old(fl.dev)), addr, len, a + seg, remain - seg)
  {
    ghost var m, rs, size, refuses := fl.dev.mem, fl.dev.regions, |fl.dev.mem|, Refuses(fl.dev);
    FlashErase.PieceFacts(a, remain, step);
    seg := FlashErase.Piece(a, remain, step);
    ret := Erase(fl, a, seg);
    ghost var m1 := fl.dev.mem;
    PieceEnds(ret, m1, m, m0, rs, size, refuses, addr, len, a, remain, seg, step);
  }

  /** flash_erase_progress on a parallel flash behaves exactly like one direct erase of the whole range. */
  method EraseProgress(fl: BpiFlash, addr: nat, len: nat) returns (ret: int)
    requires Settled(fl) && Mapped(fl) && addr + len <= |fl.dev.mem|
    modifies fl
    ensures Settled(fl) && Mapped(fl) && SameDevice(fl.dev, old(fl.dev)) && (ret == 0 || ret == -1)
    ensures ret == 0 ==> fl.dev.err == old(fl.dev).err
    ensures EraseEnded(ret, fl.dev.mem, old(fl.dev).mem, fl.dev.regions, Refuses(old(fl.dev)), addr, len)
  {
    var step := if fl.eraseBlockSize > FlashErase.STEP then fl.eraseBlockSize else FlashErase.STEP;
    FlashErase.StepIsPow2();
    ghost var d, rs, refuses := fl.dev, fl.dev.regions, Refuses(fl.dev);
    var a, remain := addr, len;
    EraseStarts(d.mem, rs, refuses, addr, len);
    while remain > 0
      invariant Settled(fl) && Mapped(fl) && SameDevice(fl.dev, d) && fl.dev.err == d.err
      invariant ErasedSoFar(fl.dev.mem, d.mem, rs, refuses, addr, len, a, remain)
    {
      var seg;
      ret, seg := ErasePiece(fl, addr, len, a, remain, step, d.mem);
      if ret != 0 {
        return ret;
      }
      a, remain := a + seg, remain - seg;
    }
    return 0;
  }

  // ---------------------------------------------------------------- an error that stands

  /** A single byte is refused, and nothing changes but the status of an Intel or Micron device. */
  method WriteByte(fl: BpiFlash, addr: nat, b: Byte) returns (ret: int)
    requires Valid(fl) && Mapped(fl) && !fl.dev.fails && addr < |fl.dev.mem|
    modifies fl
    ensures Settled(fl) && Mapped(fl) && SameDevice(fl.dev, old(fl.dev)) && ret == -1 && fl.dev.mem == old(fl.dev).mem
    ensures fl.dev.err == if fl.dev.family == Amd then 0 else 0x30
  {
    ret := BpiTransfer.Write(fl, addr, [b]);
    BpiTransfer.LoneByteRefused(ret, fl.dev.mem, old(fl.dev.mem), addr, b, fl.writeBufferSize);
  }

  /** Writing a single byte, and then erasing.  Intel and Micron: the write is refused, the error it leaves stands, and
      every erase fails from then on.  AMD: the write is refused, and the erase does what it should. */
  method ByteThenErase(fl: BpiFlash, addr: nat, b: Byte, a: nat, len: nat) returns (r1: int, r2: int)
    requires Valid(fl) && Mapped(fl) && !fl.dev.fails && addr < |fl.dev.mem| && a + len <= |fl.dev.mem| && len > 0
    modifies fl
    ensures r1 == -1
    ensures fl.dev.family != Amd ==> r2 == -1 && fl.dev.mem == old(fl.dev).mem
    ensures fl.dev.family == Amd ==> EraseEnded(r2, fl.dev.mem, old(fl.dev).mem, fl.dev.regions, false, a, len)
  {
    ghost var m := fl.dev.mem;
    r1 := WriteByte(fl, addr, b);
    ErasedNothing(m, a);
    r2 := Erase(fl, a, len);
  }
}
