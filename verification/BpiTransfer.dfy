/** Reading and writing ranges of a parallel flash. */
module BpiTransfer {
  import opened Bits
  import opened Bytes
  import opened NorMemory
  import opened BpiDevice
  import opened BpiDriver
  import opened BpiCommands

  // ---------------------------------------------------------------- reading

  ghost predicate ArrayMode(d: Dev) {
    d.phase == Idle && d.busy == 0 && if d.family == Amd then d.err == 0 else !d.status
  }

  method ReadArrayWord(fl: BpiFlash, a: nat) returns (w: Word)
    requires fl.ctrl == SELECTED && ArrayMode(fl.dev) && 2 * a + 1 < |fl.dev.mem| <= 0x2_0000_0000
    modifies fl
    ensures fl.ctrl == SELECTED && fl.dev == old(fl.dev) && w == Word(fl.dev.mem[2 * a], fl.dev.mem[2 * a + 1])
  {
    w := fl.ReadWord(a);
  }

  /** Whole words from an even address on. */
  method ReadWords(fl: BpiFlash, addr: nat, len: nat) returns (dest: seq<Byte>)
    requires fl.ctrl == SELECTED && ArrayMode(fl.dev) && addr % 2 == 0 && addr + len <= |fl.dev.mem| <= 0x2_0000_0000
    modifies fl
    ensures fl.ctrl == SELECTED && fl.dev == old(fl.dev)
    ensures |dest| == len - len % 2 && dest == fl.dev.mem[addr..addr + |dest|]
  {
    var h, n := addr / 2, len;
    dest := [];
    while n > 1
      invariant 2 * h == addr + |dest| && n == len - |dest| >= 0
      invariant fl.ctrl == SELECTED && fl.dev == old(fl.dev) && dest == fl.dev.mem[addr..2 * h]
    {
      var w := ReadArrayWord(fl, h);
      assert [w.lo, w.hi] == fl.dev.mem[2 * h..2 * h + 2];
      dest := dest + [w.lo, w.hi];
      h, n := h + 1, n - 2;
    }
    Parity(addr / 2, h, |dest|, len);
  }

  lemma Parity(from: nat, to: nat, n: nat, len: nat)
    requires 2 * from + n == 2 * to && len - 1 <= n <= len
    ensures n == len - len % 2
  {
  }

  /** Whole words and the low byte of a last half word. */
  method ReadEven(fl: BpiFlash, addr: nat, len: nat) returns (dest: seq<Byte>)
    requires fl.ctrl == SELECTED && ArrayMode(fl.dev) && addr % 2 == 0 && addr + len <= |fl.dev.mem| <= 0x2_0000_0000
    requires |fl.dev.mem| % 2 == 0
    modifies fl
    ensures fl.ctrl == SELECTED && fl.dev == old(fl.dev) && dest == fl.dev.mem[addr..addr + len]
  {
    dest := ReadWords(fl, addr, len);
    if |dest| < len {
      var a := addr + |dest|;
      LowByte(a, |fl.dev.mem|);
      var w := ReadArrayWord(fl, a / 2);
      dest := dest + [w.lo];
    }
  }

  lemma LowByte(a: nat, size: nat)
    requires a % 2 == 0 && size % 2 == 0 && a < size
    ensures 2 * (a / 2) == a && a + 1 < size
  {
  }

  /** The command to read the array, which an AMD device without an error and an idle one of the others obey. */
  method ReadArray(fl: BpiFlash)
    requires Settled(fl)
    modifies fl
    ensures fl.ctrl == SELECTED && ArrayMode(fl.dev) && fl.dev == old(fl.dev).(status := fl.dev.status)
  {
    fl.WriteWord(0, Cmd(0xFF));
  }

  /** The high byte of the first word, then the rest. */
  method ReadOdd(fl: BpiFlash, addr: nat, len: nat) returns (dest: seq<Byte>)
    requires fl.ctrl == SELECTED && ArrayMode(fl.dev) && addr % 2 == 1 && addr + len <= |fl.dev.mem| <= 0x2_0000_0000
    requires |fl.dev.mem| % 2 == 0 && len >= 1
    modifies fl
    ensures fl.ctrl == SELECTED && fl.dev == old(fl.dev) && dest == fl.dev.mem[addr..addr + len]
  {
    var w := ReadArrayWord(fl, addr / 2);
    assert w.hi == fl.dev.mem[addr];
    var rest := ReadEven(fl, addr + 1, len - 1);
    dest := [w.hi] + rest;
  }

  /** bpi_flash_read: the high byte of the first word if the address is odd, whole words, the low byte of the last
      word. */
  method Read(fl: BpiFlash, addr: nat, len: nat) returns (ret: int, dest: seq<Byte>)
    requires Settled(fl) && addr + len <= |fl.dev.mem|
    requires len >= 1 || addr % 2 == 0
    modifies fl
    ensures Settled(fl) && ret == 0 && fl.dev == old(fl.dev).(status := fl.dev.status)
    ensures dest == fl.dev.mem[addr..addr + len]
  {
    ReadArray(fl);
    if addr % 2 == 1 {
      dest := ReadOdd(fl, addr, len);
    } else {
      dest := ReadEven(fl, addr, len);
    }
    fl.Deselect();
    ret := 0;
  }

  // ---------------------------------------------------------------- writing

  /** The next piece of a write: up to the end of the buffer-aligned window. */
  function Chunk(addr: nat, len: nat, size: nat): nat
    requires size >= 1
  {
    var room := size - And(addr, size - 1);
    if len > room then room else len
  }

  lemma ChunkFacts(addr: nat, len: nat, size: nat)
    requires IsPow2(size) && len > 0
    ensures size >= 1 && 1 <= Chunk(addr, len, size) <= len
    ensures addr % size + Chunk(addr, len, size) <= size
    ensures Chunk(addr, len, size) < len ==> addr % size + Chunk(addr, len, size) == size
  {
    MaskIsMod(addr, size);
  }

  /** The words of a piece stay inside one window of the buffer. */
  lemma ChunkInWindow(addr: nat, seg: nat, window: nat)
    requires window > 0 && addr % (2 * window) + seg <= 2 * window
    ensures (addr / 2) % window + seg / 2 <= window
  {
    HalfMod(addr, window);
  }

  function Even(n: nat): (r: nat)
    ensures r <= n <= r + 1 && r % 2 == 0
  {
    2 * (n / 2)
  }

  method WriteChunk(fl: BpiFlash, addr: nat, src: seq<Byte>) returns (ret: int, seg: nat)
    requires Settled(fl) && src != [] && addr + |src| <= |fl.dev.mem|
    modifies fl
    ensures Settled(fl) && SameDevice(fl.dev, old(fl.dev)) && (ret == 0 || ret == -1)
    ensures ErrorsAfter(fl.dev, old(fl.dev), ret)
    ensures seg == Chunk(addr, |src|, fl.writeBufferSize) && 1 <= seg <= |src|
    ensures ret == 0 <==> seg > 1 && !fl.dev.fails && old(fl.dev).err == 0
    ensures fl.dev.mem == PieceWritten(old(fl.dev), addr, src, seg)
  {
    ChunkFacts(addr, |src|, fl.writeBufferSize);
    seg := Chunk(addr, |src|, fl.writeBufferSize);
    ChunkInWindow(addr, seg, fl.dev.window);
    ret := BufferedProgram(fl, addr / 2, seg / 2, src[..Even(seg)]);
  }

  /** The memory after a piece: a device that shows an old error programs it all the same. */
  ghost function PieceWritten(d: Dev, addr: nat, src: seq<Byte>, seg: nat): seq<Byte>
    requires seg <= |src|
  {
    if seg > 1 && !d.fails then Programmed(d.mem, Even(addr), src[..Even(seg)]) else d.mem
  }

  /** x is a multiple of size. */
  predicate Aligned(x: nat, size: nat)
    requires size >= 1
  {
    x == 0 || (x >= size && Aligned(x - size, size))
  }

  lemma {:induction false} AlignedIff(x: nat, size: nat)
    requires size >= 1
    ensures Aligned(x, size) <==> x % size == 0
    decreases x
  {
    if x >= size {
      AlignedIff(x - size, size);
      var q, r := (x - size) / size, (x - size) % size;
      assert (q + 1) * size == q * size + size;
      ModUnique(x, size, q + 1, r);
    } else {
      ModUnique(x, size, 0, x);
    }
  }

  /** The last byte is left alone in its piece, and a piece of one byte is announced as 65536 words. */
  predicate LoneByte(addr: nat, len: nat, size: nat)
    requires size >= 1
  {
    len % 2 == 1 && (len == 1 || Aligned(addr + len - 1, size))
  }

  /** A piece that is not the last one ends on a window boundary. */
  lemma FullPiece(a: nat, seg: nat, window: nat)
    requires window > 0 && a % (2 * window) + seg == 2 * window
    ensures (a + seg) % 2 == 0 && (a + seg) % (2 * window) == 0
  {
    var size := 2 * window;
    var q := a / size;
    assert (q + 1) * size == q * size + size;
    ModUnique(a + seg, size, q + 1, 0);
    HalfMod(a + seg, window);
  }

  /** A last piece of odd length that has more than one byte does not leave its last byte alone. */
  lemma LastPiece(a: nat, seg: nat, size: nat)
    requires size >= 1 && seg > 1 && a % size + seg <= size
    ensures (a + seg - 1) % size != 0
  {
    ModUnique(a + seg - 1, size, a / size, a % size + seg - 1);
  }

  lemma FullChunk(a: nat, n: nat, window: nat)
    requires window > 0 && IsPow2(2 * window) && n > 0
    ensures var seg := Chunk(a, n, 2 * window); seg < n ==> (a + seg) % 2 == 0 && Aligned(a + seg, 2 * window)
  {
    var seg := Chunk(a, n, 2 * window);
    ChunkFacts(a, n, 2 * window);
    if seg < n {
      FullPiece(a, seg, window);
      AlignedIff(a + seg, 2 * window);
    }
  }

  lemma LastChunk(a: nat, n: nat, window: nat)
    requires window > 0 && IsPow2(2 * window) && n > 1 && Chunk(a, n, 2 * window) == n
    ensures !Aligned(a + n - 1, 2 * window)
  {
    ChunkFacts(a, n, 2 * window);
    LastPiece(a, n, 2 * window);
    AlignedIff(a + n - 1, 2 * window);
  }

  /** What becomes of the memory, and whether every piece was accepted, when the device does not fail. */
  datatype Outcome = Outcome(ok: bool, mem: seq<Byte>)

  ghost function Pieces(m: seq<Byte>, a: nat, rest: seq<Byte>, size: nat): Outcome
    requires size >= 1
    decreases |rest|
  {
    if rest == [] then Outcome(true, m)
    else
      var seg := Chunk(a, |rest|, size);
      if !(1 < seg <= |rest|) then Outcome(false, m)
      else Pieces(Programmed(m, Even(a), rest[..Even(seg)]), a + seg, rest[seg..], size)
  }

  /** A write to an even address programs the whole words of the data, and fails only for a byte that is left alone. */
  ghost function EvenWritten(m: seq<Byte>, a: nat, rest: seq<Byte>, size: nat): Outcome
    requires size >= 1
  {
    Outcome(!LoneByte(a, |rest|, size), Programmed(m, a, rest[..Even(|rest|)]))
  }

  lemma PiecesStep(m: seq<Byte>, a: nat, rest: seq<Byte>, size: nat, seg: nat, m1: seq<Byte>, b: nat, tail: seq<Byte>)
    requires size >= 1 && seg == Chunk(a, |rest|, size) && 1 < seg <= |rest|
    requires m1 == Programmed(m, Even(a), rest[..Even(seg)]) && b == a + seg && tail == rest[seg..]
    ensures Pieces(m, a, rest, size) == Pieces(m1, b, tail, size)
  {
  }

  lemma LoneStep(a: nat, len: nat, seg: nat, b: nat, rest: nat, size: nat)
    requires size >= 1 && seg % 2 == 0 && 0 < seg < len && b == a + seg && rest == len - seg && Aligned(b, size)
    ensures LoneByte(b, rest, size) == LoneByte(a, len, size)
  {
    var last := b + rest - 1;
    assert last == a + len - 1 && rest % 2 == len % 2;
  }

  lemma EvenWords(m: seq<Byte>, a: nat, rest: seq<Byte>, seg: nat, m1: seq<Byte>, b: nat, tail: seq<Byte>)
    requires seg % 2 == 0 && seg <= |rest| && m1 == Programmed(m, a, rest[..seg]) && b == a + seg && tail == rest[seg..]
    ensures Programmed(m1, b, tail[..Even(|tail|)]) == Programmed(m, a, rest[..Even(|rest|)])
  {
    EvenSum(|rest|, seg);
    EvenJoin(m, a, rest, seg, Even(|tail|), tail);
  }

  lemma EvenStep(m: seq<Byte>, a: nat, rest: seq<Byte>, size: nat, seg: nat, m1: seq<Byte>, b: nat, tail: seq<Byte>)
    requires size >= 1 && a % 2 == 0 && 1 < seg < |rest| && seg % 2 == 0 && Aligned(b, size)
    requires m1 == Programmed(m, a, rest[..seg]) && b == a + seg && tail == rest[seg..]
    ensures EvenWritten(m1, b, tail, size) == EvenWritten(m, a, rest, size)
  {
    LoneStep(a, |rest|, seg, b, |tail|, size);
    EvenWords(m, a, rest, seg, m1, b, tail);
  }

  lemma EvenSum(n: nat, seg: nat)
    requires seg % 2 == 0 && seg <= n
    ensures Even(n) == seg + Even(n - seg)
  {
  }

  lemma EvenJoin(m: seq<Byte>, a: nat, rest: seq<Byte>, seg: nat, e: nat, tail: seq<Byte>)
    requires seg + e <= |rest| && tail == rest[seg..]
    ensures Programmed(Programmed(m, a, rest[..seg]), a + seg, tail[..e]) == Programmed(m, a, rest[..seg + e])
  {
    ProgrammedTwice(m, a, rest[..seg], tail[..e]);
    assert rest[..seg] + tail[..e] == rest[..seg + e];
  }

  lemma EvenLast(m: seq<Byte>, a: nat, rest: seq<Byte>, size: nat, window: nat)
    requires window > 0 && size == 2 * window && IsPow2(size) && a % 2 == 0 && rest != []
             && Chunk(a, |rest|, size) == |rest|
    ensures Pieces(m, a, rest, size) == EvenWritten(m, a, rest, size)
  {
    var n := |rest|;
    if n == 1 {
      assert rest[..0] == [];
      ProgrammedNothing(m, a);
    } else {
      LastChunk(a, n, window);
      PiecesStep(m, a, rest, size, n, Programmed(m, a, rest[..Even(n)]), a + n, rest[n..]);
    }
  }

  lemma {:induction false} PiecesEven(m: seq<Byte>, a: nat, rest: seq<Byte>, size: nat, window: nat)
    requires window > 0 && size == 2 * window && IsPow2(size) && a % 2 == 0
    ensures Pieces(m, a, rest, size) == EvenWritten(m, a, rest, size)
    decreases |rest|
  {
    if rest == [] {
      ProgrammedNothing(m, a);
    } else {
      var seg := ChunkOf(a, |rest|, size, window);
      if seg == |rest| {
        EvenLast(m, a, rest, size, window);
      } else {
        assert Even(a) == a && Even(seg) == seg > 1;
        var m1, b, tail := Programmed(m, a, rest[..seg]), a + seg, rest[seg..];
        PiecesEven(m1, b, tail, size, window);
        PiecesStep(m, a, rest, size, seg, m1, b, tail);
        EvenStep(m, a, rest, size, seg, m1, b, tail);
      }
    }
  }

  lemma ChunkOf(a: nat, n: nat, size: nat, window: nat) returns (seg: nat)
    requires window > 0 && size == 2 * window && IsPow2(size) && n > 0
    ensures 1 <= seg <= n && seg == Chunk(a, n, size) && (seg < n ==> (a + seg) % 2 == 0 && Aligned(a + seg, size))
  {
    seg := Chunk(a, n, size);
    ChunkFacts(a, n, size);
    FullChunk(a, n, window);
  }

  /** A write to an odd address.  Its first piece is refused if it is a single byte; otherwise it goes one byte too low,
      without its last byte if its length is odd.  The rest is a write to an even address. */
  ghost function OddWritten(m: seq<Byte>, a: nat, rest: seq<Byte>, size: nat): Outcome
    requires size >= 1
  {
    var seg := Chunk(a, |rest|, size);
    if !(1 < seg <= |rest|) then Outcome(rest == [], m)
    else EvenWritten(Programmed(m, Even(a), rest[..Even(seg)]), a + seg, rest[seg..], size)
  }

  lemma OddStep(m: seq<Byte>, a: nat, rest: seq<Byte>, size: nat, seg: nat, m1: seq<Byte>, b: nat, tail: seq<Byte>)
    requires size >= 1 && seg == Chunk(a, |rest|, size) && 1 < seg <= |rest|
    requires m1 == Programmed(m, Even(a), rest[..Even(seg)]) && b == a + seg && tail == rest[seg..]
    ensures OddWritten(m, a, rest, size) == EvenWritten(m1, b, tail, size)
  {
  }

  lemma PiecesOdd(m: seq<Byte>, a: nat, rest: seq<Byte>, size: nat, window: nat)
    requires window > 0 && size == 2 * window && IsPow2(size)
    ensures Pieces(m, a, rest, size) == OddWritten(m, a, rest, size)
  {
    if rest != [] {
      var seg := ChunkOf(a, |rest|, size, window);
      if 1 < seg {
        FirstOdd(m, a, rest, size, window, seg, Programmed(m, Even(a), rest[..Even(seg)]), a + seg, rest[seg..]);
      }
    }
  }

  lemma FirstOdd(m: seq<Byte>, a: nat, rest: seq<Byte>, size: nat, window: nat, seg: nat, m1: seq<Byte>, b: nat,
                 tail: seq<Byte>)
    requires window > 0 && size == 2 * window && IsPow2(size) && seg == Chunk(a, |rest|, size) && 1 < seg <= |rest|
    requires m1 == Programmed(m, Even(a), rest[..Even(seg)]) && b == a + seg && tail == rest[seg..]
    requires tail != [] ==> b % 2 == 0
    ensures Pieces(m, a, rest, size) == OddWritten(m, a, rest, size)
  {
    PiecesStep(m, a, rest, size, seg, m1, b, tail);
    OddStep(m, a, rest, size, seg, m1, b, tail);
    RestOdd(m1, b, tail, size, window);
  }

  lemma RestOdd(m: seq<Byte>, a: nat, rest: seq<Byte>, size: nat, window: nat)
    requires window > 0 && size == 2 * window && IsPow2(size) && (rest != [] ==> a % 2 == 0)
    ensures Pieces(m, a, rest, size) == EvenWritten(m, a, rest, size)
  {
    if rest == [] {
      ProgrammedNothing(m, a);
    } else {
      PiecesEven(m, a, rest, size, window);
    }
  }

  /** What a write does to a device that does not fail. */
  ghost function Written(m: seq<Byte>, addr: nat, src: seq<Byte>, size: nat): Outcome
    requires size >= 1
  {
    if addr % 2 == 0 then EvenWritten(m, addr, src, size) else OddWritten(m, addr, src, size)
  }

  /** How a write ends. */
  ghost predicate WriteEnded(ret: int, m: seq<Byte>, m0: seq<Byte>, fails: bool, addr: nat, src: seq<Byte>, size: nat)
    requires size >= 1
  {
    var w := Written(m0, addr, src, size);
    && (ret == 0 <==> (src == [] || !fails) && w.ok)
    && m == if fails then m0 else w.mem
  }

  /** How the pieces of a write end, one after another. */
  ghost predicate PiecesEnded(ret: int, m: seq<Byte>, m0: seq<Byte>, fails: bool, addr: nat, src: seq<Byte>, size: nat)
    requires size >= 1
  {
    var w := Pieces(m0, addr, src, size);
    (ret == 0 <==> (src == [] || !fails) && w.ok) && m == if fails then m0 else w.mem
  }

  lemma WriteEnds(ret: int, m: seq<Byte>, m0: seq<Byte>, fails: bool, addr: nat, src: seq<Byte>, size: nat, window: nat)
    requires window > 0 && size == 2 * window && IsPow2(size)
    requires PiecesEnded(ret, m, m0, fails, addr, src, size)
    ensures WriteEnded(ret, m, m0, fails, addr, src, size)
  {
    if addr % 2 == 0 {
      PiecesEven(m0, addr, src, size, window);
    } else {
      PiecesOdd(m0, addr, src, size, window);
    }
  }

  /** Where the rest of a write leads.  The name keeps the recursion of `Pieces` out of the proof of the loop. */
  ghost function Outlook(m: seq<Byte>, a: nat, rest: seq<Byte>, size: nat): Outcome
    requires size >= 1
  {
    Pieces(m, a, rest, size)
  }

  lemma OutlookStep(m: seq<Byte>, a: nat, rest: seq<Byte>, size: nat, seg: nat, m1: seq<Byte>, b: nat, tail: seq<Byte>)
    requires size >= 1 && seg == Chunk(a, |rest|, size) && 1 < seg <= |rest|
    requires m1 == Programmed(m, Even(a), rest[..Even(seg)]) && b == a + seg && tail == rest[seg..]
    ensures Outlook(m1, b, tail, size) == Outlook(m, a, rest, size)
  {
    PiecesStep(m, a, rest, size, seg, m1, b, tail);
  }

  lemma OutlookStop(m: seq<Byte>, a: nat, rest: seq<Byte>, size: nat)
    requires size >= 1 && rest != [] && Chunk(a, |rest|, size) == 1
    ensures Outlook(m, a, rest, size) == Outcome(false, m)
  {
  }

  /** One round of the loop of bpi_flash_write. */
  method WriteNext(fl: BpiFlash, a: nat, s: seq<Byte>, ghost w: Outcome) returns (ret: int, seg: nat, rest: seq<Byte>)
    requires Settled(fl) && s != [] && a + |s| <= |fl.dev.mem| && w == Outlook(fl.dev.mem, a, s, fl.writeBufferSize)
    modifies fl
    ensures Settled(fl) && SameDevice(fl.dev, old(fl.dev)) && (ret == 0 || ret == -1)
    ensures ErrorsAfter(fl.dev, old(fl.dev), ret) && seg == Chunk(a, |s|, fl.writeBufferSize) && 1 <= seg <= |s|
    ensures rest == s[seg..] && (fl.dev.fails || old(fl.dev).err != 0 ==> ret == -1)
    ensures ret == 0 ==> w == Outlook(fl.dev.mem, a + seg, rest, fl.writeBufferSize)
    ensures ret != 0 && old(fl.dev).err == 0 ==> fl.dev.mem == old(fl.dev).mem
    ensures ret != 0 && old(fl.dev).err == 0 && !fl.dev.fails ==> w == Outcome(false, fl.dev.mem)
    ensures ret != 0 && old(fl.dev).err != 0 ==> fl.dev.mem == PieceWritten(old(fl.dev), a, s, seg)
  {
    ghost var m := fl.dev.mem;
    ret, seg := WriteChunk(fl, a, s);
    rest := s[seg..];
    if ret == 0 {
      OutlookStep(m, a, s, fl.writeBufferSize, seg, fl.dev.mem, a + seg, rest);
    } else if seg == 1 {
      OutlookStop(m, a, s, fl.writeBufferSize);
    }
  }

  /** The loop of bpi_flash_write. */
  method WritePieces(fl: BpiFlash, addr: nat, src: seq<Byte>) returns (ret: int)
    requires Settled(fl) && addr + |src| <= |fl.dev.mem|
    modifies fl
    ensures Settled(fl) && SameDevice(fl.dev, old(fl.dev)) && (ret == 0 || ret == -1)
    ensures ErrorsAfter(fl.dev, old(fl.dev), ret)
    ensures old(fl.dev).err == 0 ==>
              PiecesEnded(ret, fl.dev.mem, old(fl.dev).mem, fl.dev.fails, addr, src, fl.writeBufferSize)
    ensures old(fl.dev).err != 0 && src != [] ==> ret == -1 && Chunk(addr, |src|, fl.writeBufferSize) <= |src|
    ensures old(fl.dev).err != 0 && src != [] ==>
              fl.dev.mem == PieceWritten(old(fl.dev), addr, src, Chunk(addr, |src|, fl.writeBufferSize))
    ensures old(fl.dev).err != 0 && src == [] ==> ret == 0 && fl.dev.mem == old(fl.dev).mem
  {
    ghost var d, w := fl.dev, Outlook(fl.dev.mem, addr, src, fl.writeBufferSize);
    var a: nat, s := addr, src;
    while s != []
      invariant Settled(fl) && SameDevice(fl.dev, d) && a + |s| <= |fl.dev.mem|
      invariant fl.dev.err == d.err && w == Outlook(fl.dev.mem, a, s, fl.writeBufferSize)
      invariant fl.dev.fails || d.err != 0 ==> s == src && a == addr && fl.dev.mem == d.mem
      decreases |s|
    {
      var seg;
      ret, seg, s := WriteNext(fl, a, s, w);
      if ret != 0 {
        return;
      }
      a := a + seg;
    }
    ret := 0;
  }

  /** bpi_flash_write.  At an even address it programs the whole words of the data and succeeds unless the device fails
      or the last byte is alone in its piece; data of even length is programmed completely.  If an error stands already,
      it fails after the first piece. */
  method Write(fl: BpiFlash, addr: nat, src: seq<Byte>) returns (ret: int)
    requires Settled(fl) && addr + |src| <= |fl.dev.mem|
    modifies fl
    ensures Settled(fl) && SameDevice(fl.dev, old(fl.dev)) && (ret == 0 || ret == -1)
    ensures ErrorsAfter(fl.dev, old(fl.dev), ret)
    ensures old(fl.dev).err == 0 ==>
              WriteEnded(ret, fl.dev.mem, old(fl.dev).mem, fl.dev.fails, addr, src, fl.writeBufferSize)
    ensures old(fl.dev).err != 0 && src != [] ==> ret == -1 && Chunk(addr, |src|, fl.writeBufferSize) <= |src|
    ensures old(fl.dev).err != 0 && src != [] ==>
              fl.dev.mem == PieceWritten(old(fl.dev), addr, src, Chunk(addr, |src|, fl.writeBufferSize))
    ensures old(fl.dev).err != 0 && src == [] ==> ret == 0 && fl.dev.mem == old(fl.dev).mem
  {
    ghost var d := fl.dev;
    ret := WritePieces(fl, addr, src);
    if d.err == 0 {
      WriteEnds(ret, fl.dev.mem, d.mem, fl.dev.fails, addr, src, fl.writeBufferSize, fl.dev.window);
    }
    Release(fl);
  }

  lemma LoneByteRefused(ret: int, m: seq<Byte>, m0: seq<Byte>, addr: nat, b: Byte, size: nat)
    requires size >= 1 && WriteEnded(ret, m, m0, false, addr, [b], size)
    ensures ret != 0 && m == m0
  {
    assert [b][..0] == [];
    ProgrammedNothing(m0, addr);
  }

  // ---------------------------------------------------------------- round trip

  ghost predicate IsErased(m: seq<Byte>, a: nat, n: nat) {
    a + n <= |m| && forall i | a <= i < a + n :: m[i] == ERASED
  }

  /** Whatever part of the written words is read back is the data. */
  lemma WrittenReadsBack(m: seq<Byte>, addr: nat, src: seq<Byte>, a: nat, n: nat)
    requires IsErased(m, addr, |src|) && addr <= a && a + n <= addr + Even(|src|)
    ensures Programmed(m, addr, src[..Even(|src|)])[a..a + n] == src[a - addr..a - addr + n]
  {
    var p := Programmed(m, addr, src[..Even(|src|)]);
    forall i | a <= i < a + n
      ensures p[i] == src[i - addr]
    {
      AndErased(src[i - addr]);
    }
  }

  /** All of the data reads back exactly when its length is even or the byte that is dropped was 0xff anyway. */
  lemma ReadsBackIff(m: seq<Byte>, addr: nat, src: seq<Byte>)
    requires IsErased(m, addr, |src|)
    ensures Programmed(m, addr, src[..Even(|src|)])[addr..addr + |src|] == src
       <==> |src| % 2 == 0 || src[|src| - 1] == ERASED
  {
    var n := |src|;
    var p := Programmed(m, addr, src[..Even(n)]);
    var r := p[addr..addr + n];
    forall i | 0 <= i < Even(n)
      ensures r[i] == src[i]
    {
      AndErased(src[i]);
      assert r[i] == p[addr + i];
    }
    if n % 2 == 1 {
      assert r[n - 1] == p[addr + n - 1] == ERASED;
    }
    if n % 2 == 0 || src[n - 1] == ERASED {
      assert forall i | 0 <= i < n :: r[i] == src[i];
    }
  }

  ghost predicate Blank(s: seq<Byte>) { forall i | 0 <= i < |s| :: s[i] == ERASED }

  lemma {:induction false} ConstantBlank(s: seq<Byte>, n: nat)
    requires 0 < n <= |s| && s[n - 1] == ERASED && forall i | 0 <= i < n - 1 :: s[i] == s[i + 1]
    ensures Blank(s[..n])
  {
    if n > 1 {
      assert s[n - 2] == s[n - 2 + 1];
      ConstantBlank(s, n - 1);
      assert s[..n] == s[..n - 1] + [s[n - 1]];
    }
  }

  /** What is written one byte too low reads back only if it is blank. */
  lemma LowReadsBackIff(m: seq<Byte>, addr: nat, s: seq<Byte>, p: seq<Byte>)
    requires addr % 2 == 1 && |s| > 1 && IsErased(m, addr, |s|) && p == Programmed(m, addr - 1, s[..Even(|s|)])
    ensures |p| == |m| && (p[addr..addr + |s|] == s <==> Blank(s))
  {
    var n, e := |s|, Even(|s|);
    var r := p[addr..addr + n];
    forall i | 0 <= i < e - 1
      ensures r[i] == s[i + 1]
    {
      AndErased(s[i + 1]);
    }
    assert forall i | e - 1 <= i < n :: r[i] == ERASED;
    if r == s {
      ConstantBlank(s, e);
      assert forall i | 0 <= i < e :: s[i] == s[..e][i];
    }
  }

  lemma ReadsBackInTwo(p: seq<Byte>, a: nat, x: seq<Byte>, y: seq<Byte>)
    requires a + |x| + |y| <= |p|
    ensures p[a..a + |x| + |y|] == x + y <==> p[a..a + |x|] == x && p[a + |x|..a + |x| + |y|] == y
  {
    var u, v := p[a..a + |x|], p[a + |x|..a + |x| + |y|];
    assert p[a..a + |x| + |y|] == u + v;
    assert (u + v)[..|x|] == u && (u + v)[|x|..] == v && (x + y)[..|x|] == x && (x + y)[|x|..] == y;
  }

  /** The first piece one byte too low, and the rest in place. */
  lemma TwoPartsIff(m: seq<Byte>, addr: nat, lead: seq<Byte>, rest: seq<Byte>, m1: seq<Byte>, p: seq<Byte>)
    requires addr % 2 == 1 && |lead| > 1 && IsErased(m, addr, |lead| + |rest|)
    requires m1 == Programmed(m, addr - 1, lead[..Even(|lead|)])
    requires p == Programmed(m1, addr + |lead|, rest[..Even(|rest|)])
    ensures |p| == |m|
    ensures p[addr..addr + |lead| + |rest|] == lead + rest
       <==> Blank(lead) && (|rest| % 2 == 0 || rest[|rest| - 1] == ERASED)
  {
    LowReadsBackIff(m, addr, lead, m1);
    ReadsBackIff(m1, addr + |lead|, rest);
    assert p[addr..addr + |lead|] == m1[addr..addr + |lead|];
    ReadsBackInTwo(p, addr, lead, rest);
  }

  lemma OddParts(m: seq<Byte>, addr: nat, src: seq<Byte>, size: nat, lead: seq<Byte>, rest: seq<Byte>)
    requires size >= 1 && addr % 2 == 1 && src == lead + rest && 1 < |lead| == Chunk(addr, |src|, size)
    ensures OddWritten(m, addr, src, size).mem
         == Programmed(Programmed(m, addr - 1, lead[..Even(|lead|)]), addr + |lead|, rest[..Even(|rest|)])
  {
    var seg := |lead|;
    assert src[..Even(seg)] == lead[..Even(seg)] && src[seg..] == rest;
  }

  lemma OddPartsIff(m: seq<Byte>, addr: nat, src: seq<Byte>, size: nat, lead: seq<Byte>, rest: seq<Byte>, p: seq<Byte>)
    requires size >= 1 && addr % 2 == 1 && IsErased(m, addr, |src|) && src == lead + rest
    requires 1 < |lead| == Chunk(addr, |src|, size) && p == OddWritten(m, addr, src, size).mem
    ensures |p| == |m|
    ensures p[addr..addr + |src|] == src <==> Blank(lead) && (|rest| % 2 == 0 || rest[|rest| - 1] == ERASED)
  {
    OddParts(m, addr, src, size, lead, rest);
    TwoPartsIff(m, addr, lead, rest, Programmed(m, addr - 1, lead[..Even(|lead|)]), p);
  }

  lemma BlankReadsBackIff(m: seq<Byte>, addr: nat, src: seq<Byte>)
    requires IsErased(m, addr, |src|)
    ensures m[addr..addr + |src|] == src <==> Blank(src)
  {
    var r := m[addr..addr + |src|];
    assert forall i | 0 <= i < |src| :: r[i] == m[addr + i] == ERASED;
    if Blank(src) {
      assert forall i | 0 <= i < |src| :: r[i] == src[i];
    }
  }

  /** The data of a write to an odd address whose first piece of more than one byte is blank, and whose other data has
      even length or a last byte 0xff. */
  ghost predicate OddFits(src: seq<Byte>, seg: nat)
    requires seg <= |src|
  {
    Blank(src[..seg]) && ((|src| - seg) % 2 == 0 || src[|src| - 1] == ERASED)
  }

  lemma OddRefused(ret: int, m: seq<Byte>, m0: seq<Byte>, fails: bool, addr: nat, src: seq<Byte>, size: nat)
    requires size >= 1 && addr % 2 == 1 && src != [] && WriteEnded(ret, m, m0, fails, addr, src, size)
    requires fails || Chunk(addr, |src|, size) == 1
    ensures ret != 0 && m == m0
  {
  }

  lemma OddAccepted(ret: int, m: seq<Byte>, m0: seq<Byte>, addr: nat, src: seq<Byte>, size: nat, seg: nat)
    requires size >= 1 && addr % 2 == 1 && src != [] && WriteEnded(ret, m, m0, false, addr, src, size)
    requires 1 < seg <= |src| && seg == Chunk(addr, |src|, size)
    ensures m == OddWritten(m0, addr, src, size).mem
    ensures ret == 0 <==> !LoneByte(addr + seg, |src| - seg, size)
  {
  }

  lemma OddFitsIff(m: seq<Byte>, m0: seq<Byte>, addr: nat, src: seq<Byte>, size: nat, seg: nat)
    requires size >= 1 && addr % 2 == 1 && IsErased(m0, addr, |src|) && m == OddWritten(m0, addr, src, size).mem
    requires 1 < seg <= |src| && seg == Chunk(addr, |src|, size)
    ensures |m| == |m0| && (m[addr..addr + |src|] == src <==> OddFits(src, seg))
  {
    var lead, rest := src[..seg], src[seg..];
    OddPartsIff(m0, addr, src, size, lead, rest, m);
  }

  /** A write of data to an odd address of an erased range.  If its first piece is a single byte, or the device
      fails, it is refused, nothing changes, and the range reads back only if the data is blank.  Otherwise it reads
      back exactly when the first piece is blank and what follows has even length or a last byte 0xff. */
  lemma OddReadsBackIff(ret: int, m: seq<Byte>, m0: seq<Byte>, fails: bool, addr: nat, src: seq<Byte>, size: nat,
                        seg: nat)
    requires IsPow2(size) && size >= 1 && addr % 2 == 1 && src != [] && IsErased(m0, addr, |src|)
    requires WriteEnded(ret, m, m0, fails, addr, src, size) && seg == Chunk(addr, |src|, size)
    ensures |m| == |m0| && 1 <= seg <= |src|
    ensures fails || seg == 1 ==> ret != 0 && m == m0 && (m[addr..addr + |src|] == src <==> Blank(src))
    ensures !fails && seg > 1 ==> (ret == 0 <==> !LoneByte(addr + seg, |src| - seg, size))
    ensures !fails && seg > 1 ==> (m[addr..addr + |src|] == src <==> OddFits(src, seg))
  {
    ChunkFacts(addr, |src|, size);
    if fails || seg == 1 {
      OddRefused(ret, m, m0, fails, addr, src, size);
      BlankReadsBackIff(m0, addr, src);
    } else {
      OddAccepted(ret, m, m0, addr, src, size, seg);
      OddFitsIff(m, m0, addr, src, size, seg);
    }
  }

  /** A write to an odd address of an erased range succeeds and yet does not read back exactly when its first piece has
      more than one byte, no byte of the rest is alone in its piece, and the data does not fit. */
  lemma OddLossUnnoticedIff(ret: int, m: seq<Byte>, m0: seq<Byte>, addr: nat, src: seq<Byte>, size: nat, seg: nat)
    requires IsPow2(size) && size >= 1 && addr % 2 == 1 && src != [] && IsErased(m0, addr, |src|)
    requires WriteEnded(ret, m, m0, false, addr, src, size) && seg == Chunk(addr, |src|, size)
    ensures |m| == |m0| && 1 <= seg <= |src|
    ensures ret == 0 && m[addr..addr + |src|] != src
       <==> seg > 1 && !LoneByte(addr + seg, |src| - seg, size) && !OddFits(src, seg)
  {
    OddReadsBackIff(ret, m, m0, false, addr, src, size, seg);
  }

  lemma FirstPiece(addr: nat, len: nat, size: nat)
    requires IsPow2(size) && size >= 1 && addr < size
    ensures Chunk(addr, len, size) == if len > size - addr then size - addr else len
  {
    MaskIsMod(addr, size);
    ModUnique(addr, size, 0, addr);
  }

  /** For example, two bytes at address 1 are accepted and are not what is read back. */
  lemma OddAddressAccepted(ret: int, m: seq<Byte>, m0: seq<Byte>, src: seq<Byte>, size: nat)
    requires IsPow2(size) && size >= 4 && src == [0x12, 0x34] && IsErased(m0, 1, 2)
    requires WriteEnded(ret, m, m0, false, 1, src, size)
    ensures ret == 0 && |m| == |m0| && m[1..3] != src
  {
    FirstPiece(1, 2, size);
    OddLossUnnoticedIff(ret, m, m0, 1, src, size, 2);
    assert src[..2][0] == 0x12;
  }

  /** Data whose first byte is alone in its piece is refused, although that byte is 0xff and the rest has even
      length. */
  lemma OddAddressRefused(ret: int, m: seq<Byte>, m0: seq<Byte>, src: seq<Byte>)
    requires src == [ERASED, 0x12, 0x34] && IsErased(m0, 3, 3) && WriteEnded(ret, m, m0, false, 3, src, 4)
    ensures ret != 0 && m == m0 && m[3..6] != src
  {
    assert Pow2(2) == 4;
    FirstPiece(3, 3, 4);
    OddReadsBackIff(ret, m, m0, false, 3, src, 4, 1);
    assert src[1] == 0x12;
  }

  /** A write to an even address of an erased range succeeds and yet does not read back exactly when its odd last byte
      is neither alone in its piece nor 0xff. */
  lemma LossUnnoticedIff(ret: int, m: seq<Byte>, m0: seq<Byte>, addr: nat, src: seq<Byte>, size: nat)
    requires size >= 1 && addr % 2 == 0 && IsErased(m0, addr, |src|) && WriteEnded(ret, m, m0, false, addr, src, size)
    ensures |m| == |m0|
    ensures ret == 0 && m[addr..addr + |src|] != src
       <==> |src| % 2 == 1 && src[|src| - 1] != ERASED && !LoneByte(addr, |src|, size)
  {
    ReadsBackIff(m0, addr, src);
  }

  /** For example, the last of three bytes at address 0 is lost. */
  lemma OddLengthAccepted(ret: int, m: seq<Byte>, m0: seq<Byte>, src: seq<Byte>, size: nat)
    requires size >= 4 && |src| == 3 && src[2] != ERASED && IsErased(m0, 0, 3)
             && WriteEnded(ret, m, m0, false, 0, src, size)
    ensures ret == 0 && |m| == |m0| && m[0..3] != src
  {
    LossUnnoticedIff(ret, m, m0, 0, src, size);
  }
}
