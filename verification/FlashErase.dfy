/** Cutting a transfer into pieces that end on step boundaries, and erasing in such pieces. */
module FlashErase {
  import opened Bits
  import opened NorMemory
  import opened SpiDevice
  import opened SpiDriver
  import opened SpiCommands

  const STEP: nat := 0x1_0000

  /** The length of the next piece. */
  function Piece(addr: nat, remain: nat, step: nat): nat
    requires step >= 1
  {
    if remain > step then
      var m := And(addr + step, step - 1);
      if m != 0 then step - m else step
    else remain
  }

  /** For a step that is a power of two, a piece is not empty and fits the step and what is left.  It is all that is
      left if that fits the step, and otherwise it ends on the next step boundary. */
  lemma PieceFacts(addr: nat, remain: nat, step: nat)
    requires IsPow2(step) && remain > 0
    ensures var n := Piece(addr, remain, step);
            && 0 < n <= step && n <= remain && (n == remain || (addr + n) % step == 0)
            && if remain <= step then n == remain else (addr + n) % step == 0
  {
    if remain > step {
      MaskIsMod(addr + step, step);
      UpToBoundary(addr, step, And(addr + step, step - 1), Piece(addr, remain, step));
    }
  }

  lemma UpToBoundary(addr: nat, step: nat, m: nat, n: nat)
    requires step >= 1 && m == (addr + step) % step && n == step - m
    ensures 0 < n <= step && (addr + n) % step == 0
  {
    var q := (addr + step) / step;
    assert addr + n == q * step + 0;
    ModUnique(addr + n, step, q, 0);
  }

  lemma StepIsPow2()
    ensures IsPow2(STEP)
  {
    assert Pow2(4) == 16;
    assert Pow2(8) == 256;
    assert Pow2(12) == 4096;
    assert Pow2(16) == STEP;
  }

  lemma AtLeastOneBlock(addr: nat, n: nat)
    requires n > 0 && addr % SUBSECTOR == 0 && (addr + n) % SECTOR == 0
    ensures n >= SUBSECTOR && (addr % SECTOR == 0 ==> n >= SECTOR)
  {
    var u, v := addr / SUBSECTOR, (addr + n) / SECTOR;
    assert addr == SUBSECTOR * u && addr + n == SECTOR * v;
    assert n == SUBSECTOR * (16 * v - u);
    if addr % SECTOR == 0 {
      var w := addr / SECTOR;
      assert n == SECTOR * (v - w);
    }
  }

  lemma NextBlock(addr: nat, size: nat)
    requires addr % SUBSECTOR == 0 && (size == SECTOR || size == SUBSECTOR)
    ensures (addr + size) % SUBSECTOR == 0
  {
  }

  lemma TileHead(addr: nat, len: nat, size: nat)
    requires addr % SUBSECTOR == 0 && len >= size && size == (if addr % SECTOR == 0 then SECTOR else SUBSECTOR)
    ensures Tiles(addr, len) == [(addr, size)] + Tiles(addr + size, len - size)
  {
  }

  lemma Regroup<T>(head: seq<T>, mid: seq<T>, tail: seq<T>, left: seq<T>, whole: seq<T>)
    requires left == head + mid && whole == head + (mid + tail)
    ensures whole == left + tail
  {
  }

  /** Erasing up to a sector boundary and then the rest uses the same blocks as erasing in one go. */
  lemma {:induction false} TilesSplit(addr: nat, n: nat, rest: nat, end: nat, total: nat)
    requires addr % SUBSECTOR == 0 && end % SECTOR == 0 && end == addr + n && total == n + rest
    ensures Tiles(addr, total) == Tiles(addr, n) + Tiles(end, rest)
    decreases n
  {
    if n > 0 {
      AtLeastOneBlock(addr, n);
      var size := if addr % SECTOR == 0 then SECTOR else SUBSECTOR;
      NextBlock(addr, size);
      TilesSplit(addr + size, n - size, rest, end, total - size);
      TileHead(addr, n, size);
      TileHead(addr, total, size);
      Regroup([(addr, size)], Tiles(addr + size, n - size), Tiles(end, rest), Tiles(addr, n), Tiles(addr, total));
    } else {
      assert Tiles(addr, 0) == [];
    }
  }

  lemma AlignedPiece(a: nat, n: nat, seg: nat)
    requires 0 < seg <= n && (seg == n || (a + seg) % SECTOR == 0)
    ensures seg < n && a % SUBSECTOR == 0 ==> seg % SUBSECTOR == 0
    ensures seg % SUBSECTOR == 0 ==> (n - seg) % SUBSECTOR == n % SUBSECTOR
    ensures seg < n ==> (a + seg) % SUBSECTOR == 0
    ensures seg % SUBSECTOR == 0 && a % SUBSECTOR == 0 ==> (a + seg) % SUBSECTOR == 0
  {
    if seg < n {
      SectorIsSubsector(a + seg);
    }
    if a % SUBSECTOR == 0 {
      AddMultiple(a, seg);
    }
    if seg % SUBSECTOR == 0 {
      AddMultiple(seg, n - seg);
    }
  }

  lemma AddMultiple(x: nat, y: nat)
    requires x % SUBSECTOR == 0
    ensures (x + y) % SUBSECTOR == y % SUBSECTOR
  {
    var u := x / SUBSECTOR;
    assert x + y == SUBSECTOR * u + y;
  }

  /** A piece has been erased completely. */
  lemma PieceErased(d: Dev, e: Dev, f: Dev, addr: nat, len: nat, a: nat, n: nat, seg: nat)
    requires Progress(d, e, addr, len, a, n) && !d.locked
    requires 0 < seg <= n && (seg == n || (a + seg) % SECTOR == 0) && a % SUBSECTOR == 0 && seg % SUBSECTOR == 0
    requires f == e.(wel := f.wel, mem := Erased(e.mem, a, seg), eraseLog := e.eraseLog + Tiles(a, seg))
    ensures Progress(d, f, addr, len, a + seg, n - seg)
  {
    AlignedPiece(a, n, seg);
    ErasedTwice(d.mem, addr, a - addr, seg);
    PieceLog(e.eraseLog, d.eraseLog + Tiles(addr, len), a, n, seg);
    PieceLength(a, n, seg);
  }

  lemma PieceLength(a: nat, n: nat, seg: nat)
    requires 0 < seg <= n && a % SUBSECTOR == 0 && seg % SUBSECTOR == 0
    ensures seg + Erasable(a + seg, n - seg) == Erasable(a, n)
  {
    var u, v := a / SUBSECTOR, seg / SUBSECTOR;
    assert a + seg == SUBSECTOR * (u + v);
    assert n - seg == n - SUBSECTOR * v;
  }

  lemma PieceLog(log: seq<(nat, nat)>, whole: seq<(nat, nat)>, a: nat, n: nat, seg: nat)
    requires 0 < seg <= n && (seg == n || (a + seg) % SECTOR == 0) && a % SUBSECTOR == 0
    requires log + Tiles(a, n) == whole
    ensures log + Tiles(a, seg) + Tiles(a + seg, n - seg) == whole
  {
    if seg == n {
      assert Tiles(a + seg, 0) == [];
    } else {
      TilesSplit(a, seg, n - seg, a + seg, n);
    }
    assert log + Tiles(a, seg) + Tiles(a + seg, n - seg) == log + (Tiles(a, seg) + Tiles(a + seg, n - seg));
  }

  /** A piece that cannot be erased completely is the last one, or the request was misaligned from the start. */
  lemma PieceFails(d: Dev, e: Dev, f: Dev, addr: nat, len: nat, a: nat, n: nat, seg: nat)
    requires Progress(d, e, addr, len, a, n) && !d.locked
    requires 0 < seg <= n && (seg == n || (a + seg) % SECTOR == 0) && !(a % SUBSECTOR == 0 && seg % SUBSECTOR == 0)
    requires f == e.(wel := f.wel, mem := Erased(e.mem, a, Erasable(a, seg)), eraseLog := e.eraseLog + Tiles(a, seg))
    ensures f.mem == Erased(d.mem, addr, Erasable(addr, len)) && f.eraseLog == d.eraseLog + Tiles(addr, len)
    ensures len > 0 && !(addr % SUBSECTOR == 0 && len % SUBSECTOR == 0)
  {
    AlignedPiece(a, n, seg);
    ErasedTwice(d.mem, addr, a - addr, Erasable(a, seg));
    if a % SUBSECTOR != 0 {
      assert Tiles(a, n) == [] by { NoTiles(a, n); }
      NoTiles(a, seg);
    }
  }

  lemma NoTiles(a: nat, n: nat)
    requires a % SUBSECTOR != 0
    ensures Tiles(a, n) == []
  {
    if a % SECTOR == 0 {
      SectorIsSubsector(a);
    }
  }

  /** flash_erase_progress behaves exactly like one direct erase of the whole range: same result, same memory,
      same blocks in the same order. */
  method EraseProgress(fl: SpiFlash, addr: nat, len: nat) returns (ret: int)
    requires Valid(fl) && addr + len <= fl.size
    modifies fl
    ensures Valid(fl)
    ensures ret == 0 || ret == -1
    ensures ret == 0 <==> len == 0 || (!old(fl.dev).locked && addr % SUBSECTOR == 0 && len % SUBSECTOR == 0)
    ensures fl.dev == old(fl.dev).(wel := fl.dev.wel, mem := fl.dev.mem, eraseLog := fl.dev.eraseLog)
    ensures old(fl.dev).locked ==> fl.dev.mem == old(fl.dev).mem && fl.dev.eraseLog == old(fl.dev).eraseLog
    ensures !old(fl.dev).locked ==>
              && fl.dev.mem == Erased(old(fl.dev).mem, addr, Erasable(addr, len))
              && fl.dev.eraseLog == old(fl.dev).eraseLog + Tiles(addr, len)
  {
    var step := if SUBSECTOR > STEP then SUBSECTOR else STEP;
    StepIsPow2();
    ghost var d := fl.dev;
    ProgressStarts(d, addr, len);
    var a, remain := addr, len;
    while remain > 0
      invariant Valid(fl) && Progress(d, fl.dev, addr, len, a, remain)
      invariant d.locked ==> a == addr && fl.dev.mem == d.mem && fl.dev.eraseLog == d.eraseLog
    {
      PieceFacts(a, remain, step);
      var seg := Piece(a, remain, step);
      ghost var e := fl.dev;
      ret := Erase(fl, a, seg);
      if ret != 0 {
        if !d.locked {
          PieceFails(d, e, fl.dev, addr, len, a, remain, seg);
        }
        return ret;
      }
      WholePiece(a, seg);
      PieceErased(d, e, fl.dev, addr, len, a, remain, seg);
      a, remain := a + seg, remain - seg;
    }
    ProgressEnds(d, fl.dev, addr, len, a, remain);
    return 0;
  }

  lemma WholePiece(a: nat, seg: nat)
    ensures a % SUBSECTOR == 0 && seg % SUBSECTOR == 0 ==> Erasable(a, seg) == seg
  {
  }
}
