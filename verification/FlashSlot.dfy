/** Programming a slot from a firmware image, and reading a slot back. */
module FlashSlot {
  import opened Bits
  import opened Bytes
  import opened NorMemory
  import opened SpiDevice
  import opened SpiDriver
  import opened SpiCommands
  import opened FlashErase
  import opened FlashVerify
  import opened BitReversal
  import BpiDevice
  import BpiDriver
  import BpiErase

  const SYNC_WORD: seq<Byte> := [0xAA, 0x99, 0x55, 0x66]

  // ---------------------------------------------------------------- the segment buffer

  function Padded(image: seq<Byte>, n: nat): (r: seq<Byte>)
    requires |image| <= n
    ensures |r| == n
  {
    image + seq(n - |image|, _ => ERASED)
  }

  /** The bit order that a board needs. */
  datatype Order = AsIs | ByBytes | ByWords

  predicate Orderable(n: nat, o: Order) { o == ByWords ==> n % 2 == 0 }

  function Ordered(s: seq<Byte>, o: Order): (r: seq<Byte>)
    requires Orderable(|s|, o)
    ensures |r| == |s|
  {
    match o case AsIs => s case ByBytes => Reversed(s) case ByWords => WordsReversed(s)
  }

  /** Byte i of s, which is followed by 0xff. */
  function ByteAt(s: seq<Byte>, i: nat): Byte { if i < |s| then s[i] else 0xff }

  /** b is what a board of this bit order holds in place i of s: the byte, the byte turned round, or the other byte
      of its 16-bit word turned round. */
  ghost predicate Shows(b: Byte, s: seq<Byte>, i: nat, o: Order) {
    match o
    case AsIs => b == ByteAt(s, i)
    case ByBytes => Mirrors(b, ByteAt(s, i))
    case ByWords => Mirrors(b, ByteAt(s, if i % 2 == 0 then i + 1 else i - 1))
  }

  lemma OrderedShows(s: seq<Byte>, o: Order, i: nat)
    requires Orderable(|s|, o) && i < |s|
    ensures Shows(Ordered(s, o)[i], s, i, o)
  {
    match o
    case AsIs =>
    case ByBytes => Reverse8Mirrors(s[i]);
    case ByWords => Reverse8Mirrors(s[Mate(i)]);
  }

  /** The padding of a segment is what follows the image. */
  lemma PaddedShows(image: seq<Byte>, n: nat, b: Byte, i: nat, o: Order)
    requires |image| <= n && i < n && Orderable(n, o) && Shows(b, Padded(image, n), i, o)
    ensures Shows(b, image, i, o)
  {
  }

  method Reorder(buf: array<Byte>, o: Order)
    requires Orderable(buf.Length, o)
    modifies buf
    ensures buf[..] == Ordered(old(buf[..]), o)
  {
    match o {
      case AsIs =>
      case ByBytes => ReverseInPlace(buf);
      case ByWords => ReverseWords(buf);
    }
  }

  method FillSegment(image: seq<Byte>, segmentSize: nat) returns (segment: array<Byte>)
    requires |image| <= segmentSize
    ensures fresh(segment) && segment[..] == Padded(image, segmentSize)
  {
    segment := new Byte[segmentSize](_ => ERASED);
    for i := 0 to |image|
      invariant forall j | 0 <= j < i :: segment[j] == image[j]
      invariant forall j | i <= j < segmentSize :: segment[j] == ERASED
    {
      segment[i] := image[i];
    }
  }

  // ---------------------------------------------------------------- rounding

  function RoundedLength(offset: nat, len: nat, block: nat): nat
    requires block >= 1
  {
    var m := And(offset + len, block - 1);
    if m != 0 then len + (block - m) else len
  }

  /** Rounding goes to the next block boundary, and stays inside a slot that ends on one. */
  lemma RoundedLengthFacts(offset: nat, len: nat, block: nat, size: nat)
    requires IsPow2(block) && len <= size && offset % block == 0 && size % block == 0
    ensures var r := RoundedLength(offset, len, block); len <= r < len + block && r <= size && r % block == 0
  {
    MaskOfSum(offset, len, block);
    NextMultiple(len, block, size);
    var m := len % block;
    assert RoundedLength(offset, len, block) == if m != 0 then len + (block - m) else len;
  }

  /** Wherever the range starts, its rounded end is the next block boundary. */
  lemma RoundedEnd(offset: nat, len: nat, block: nat, top: nat)
    requires IsPow2(block) && offset + len <= top && top % block == 0
    ensures var r := RoundedLength(offset, len, block);
            len <= r < len + block && offset + r <= top && (offset + r) % block == 0
  {
    MaskIsMod(offset + len, block);
    NextMultiple(offset + len, block, top);
  }

  lemma MaskOfSum(offset: nat, len: nat, block: nat)
    requires IsPow2(block) && offset % block == 0
    ensures block >= 1 && And(offset + len, block - 1) == len % block
  {
    MaskIsMod(offset + len, block);
    MultipleDrops(offset, len, block);
  }

  lemma MultipleDrops(offset: nat, len: nat, block: nat)
    requires block >= 1 && offset % block == 0
    ensures (offset + len) % block == len % block
  {
    var u := offset / block;
    assert offset == u * block;
    ModOfSum(u, len, block);
  }

  lemma NextMultiple(len: nat, block: nat, size: nat)
    requires block >= 1 && len <= size && size % block == 0
    ensures len % block < block && (len % block == 0 || len + (block - len % block) <= size)
    ensures len % block != 0 ==> (len + (block - len % block)) % block == 0
  {
    var q, m, v := len / block, len % block, size / block;
    if m != 0 {
      if q >= v {
        MulMono(v, q, block);
      }
      MulMono(q + 1, v, block);
      assert len + (block - m) == (q + 1) * block + 0;
      ModUnique(len + (block - m), block, q + 1, 0);
    }
  }

  lemma ModOfSum(u: nat, x: nat, m: nat)
    requires m >= 1
    ensures (u * m + x) % m == x % m
  {
    var q, r := x / m, x % m;
    assert u * m + x == (u + q) * m + r by { assert (u + q) * m == u * m + q * m; }
    ModUnique(u * m + x, m, u + q, r);
  }

  // ---------------------------------------------------------------- programming a slot

  /** The image fits the slot and has the bitstream sync word in its place. */
  predicate Acceptable(image: seq<Byte>, segmentSize: nat) {
    && |image| <= segmentSize && 0x54 <= segmentSize
    && Padded(image, segmentSize)[0x50..0x54] == [0xAA, 0x99, 0x55, 0x66]
  }

  lemma AcceptableIsLong(image: seq<Byte>, segmentSize: nat)
    requires Acceptable(image, segmentSize)
    ensures |image| > 0x50
  {
    var p := Padded(image, segmentSize);
    assert p[0x50] == p[0x50..0x54][0] == SYNC_WORD[0];
  }

  /** What is written to the slot: the image, padded with 0xff and in the bit order of the board, up to the end of a
      block.  If that is beyond the slot, whatever follows the segment buffer in memory is written there. */
  function SlotContents(image: seq<Byte>, offset: nat, size: nat, block: nat, o: Order, after: seq<Byte>): seq<Byte>
    requires |image| <= size && block >= 1 && Orderable(size, o)
  {
    var n := RoundedLength(offset, |image|, block);
    var c := Ordered(Padded(image, size), o) + after;
    if n <= |c| then c[..n] else c
  }

  /** Rounding up to whole blocks stays inside the slot, for every image, exactly when the slot ends on a block
      boundary. */
  lemma SlotStaysInsideIff(offset: nat, size: nat, block: nat)
    requires IsPow2(block) && block >= 1
    ensures (forall len | 0 <= len <= size :: RoundedLength(offset, len, block) <= size)
       <==> (offset + size) % block == 0
  {
    if (offset + size) % block == 0 {
      forall len | 0 <= len <= size
        ensures RoundedLength(offset, len, block) <= size
      {
        RoundedEnd(offset, len, block, offset + size);
      }
    } else {
      MaskIsMod(offset + size, block);
      assert RoundedLength(offset, size, block) > size;
    }
  }

  /** For example, with blocks of 128 KiB a full image leaves a slot of 0x1001000 bytes. */
  lemma SlotOverruns(block: nat, size: nat, k: nat)
    requires IsPow2(block) && block > 0x1000 && size == k * block + 0x1000
    ensures RoundedLength(0, size, block) > size
  {
    MaskIsMod(size, block);
    ModUnique(size, block, k, 0x1000);
  }

  lemma BlockIsPow2()
    ensures IsPow2(SUBSECTOR)
  {
    assert Pow2(4) == 16;
    assert Pow2(8) == 256;
    assert Pow2(12) == SUBSECTOR;
  }

  /** Anything fits over erased memory. */
  lemma ErasedFits(m: seq<Byte>, a: nat, d: seq<Byte>)
    requires a + |d| <= |m|
    ensures Fits(Erased(m, a, |d|), a, d)
  {
    var e := Erased(m, a, |d|);
    FitsAt(e, a, d);
    forall i | 0 <= i < |d|
      ensures e[a + i] & d[i] == d[i]
    {
      AndErased(d[i]);
    }
  }

  /** The size to which the length of an image is rounded. */
  function EraseBlock(f: Flash): nat {
    match f case Spi(_) => SUBSECTOR case Bpi(bp) => bp.eraseBlockSize case Unreliable(_) => 1
  }

  /** A block starts at this address, so that erasing can begin there. */
  ghost predicate StartsBlock(f: Flash, addr: nat)
    reads Repr(f)
  {
    match f
    case Spi(_) => addr % SUBSECTOR == 0
    case Bpi(bp) => BpiErase.Boundary(bp.dev.regions, |bp.dev.mem|, addr)
    case Unreliable(_) => true
  }

  /** Erase a range that ends on a block boundary.  One that does not start on a boundary is refused. */
  method EraseRange(f: Flash, addr: nat, len: nat) returns (ret: int)
    requires Working(f) && Usable(f, addr, len) && (StartsBlock(f, addr) ==> StartsBlock(f, addr + len))
    modifies Repr(f)
    ensures ret == 0 || !f.Bpi? ==> StoreOf(f).ready
    ensures ret == 0 <==> len == 0 || (!old(StoreOf(f)).refuses && old(StartsBlock(f, addr)))
    ensures StoreOf(f).refuses == old(StoreOf(f)).refuses
    ensures StoreOf(f).mem == if ret == 0 then Erased(old(StoreOf(f)).mem, addr, len) else old(StoreOf(f)).mem
  {
    match f {
      case Spi(fl) => ret := EraseSectors(fl, addr, len);
      case Bpi(bp) => ret := EraseBlocks(bp, addr, len);
    }
  }

  lemma WholeBlocks(addr: nat, len: nat)
    requires addr % SUBSECTOR == 0 && (addr + len) % SUBSECTOR == 0
    ensures len % SUBSECTOR == 0
  {
  }

  method EraseSectors(fl: SpiFlash, addr: nat, len: nat) returns (ret: int)
    requires Valid(fl) && addr + len <= fl.size && (addr % SUBSECTOR == 0 ==> (addr + len) % SUBSECTOR == 0)
    modifies fl
    ensures Valid(fl)
    ensures ret == 0 <==> len == 0 || (!old(fl.dev).locked && addr % SUBSECTOR == 0)
    ensures fl.dev.locked == old(fl.dev).locked
    ensures fl.dev.mem == if ret == 0 then Erased(old(fl.dev).mem, addr, len) else old(fl.dev).mem
  {
    if addr % SUBSECTOR == 0 {
      WholeBlocks(addr, len);
    }
    ret := EraseProgress(fl, addr, len);
    ErasedNothing(fl.dev.mem, addr);
    ErasedNothing(old(fl.dev.mem), addr);
    WholePiece(addr, len);
  }

  method EraseBlocks(bp: BpiDriver.BpiFlash, addr: nat, len: nat) returns (ret: int)
    requires StoreOf(Bpi(bp)).ready && addr + len <= |bp.dev.mem|
    requires BpiErase.Boundary(bp.dev.regions, |bp.dev.mem|, addr) ==>
               BpiErase.Boundary(bp.dev.regions, |bp.dev.mem|, addr + len)
    modifies bp
    ensures ret == 0 ==> StoreOf(Bpi(bp)).ready
    ensures ret == 0 <==> len == 0 || (!old(bp.dev).fails && old(BpiErase.Boundary(bp.dev.regions, |bp.dev.mem|, addr)))
    ensures bp.dev.fails == old(bp.dev).fails
    ensures bp.dev.mem == if ret == 0 then Erased(old(bp.dev).mem, addr, len) else old(bp.dev).mem
  {
    ghost var rs, size, m0 := bp.dev.regions, |bp.dev.mem|, bp.dev.mem;
    ret := BpiErase.EraseProgress(bp, addr, len);
    ErasedNothing(m0, addr);
    BlocksErased(ret, bp.dev.mem, m0, rs, size, bp.dev.fails, addr, len);
  }

  lemma BlocksErased(ret: int, m: seq<Byte>, m0: seq<Byte>, rs: seq<BpiDevice.Region>, size: nat, fails: bool,
                     addr: nat, len: nat)
    requires BpiErase.Divided(rs, size) && addr + len <= size && BpiErase.EraseEnded(ret, m, m0, rs, fails, addr, len)
    requires BpiErase.Boundary(rs, size, addr) ==> BpiErase.Boundary(rs, size, addr + len)
    ensures ret == 0 <==> len == 0 || (!fails && BpiErase.Boundary(rs, size, addr))
    ensures m == if ret == 0 then Erased(m0, addr, len) else m0
  {
    ErasedNothing(m0, addr);
    BpiErase.ErasableIff(rs, size, addr, len);
    if len > 0 && !BpiErase.Boundary(rs, size, addr) {
      BpiErase.ErasableNothing(rs, size, addr, len);
    }
  }

  /** Write and verify a range that has just been erased: exactly the data, and nothing else changes. */
  method WriteRange(f: Flash, addr: nat, data: seq<Byte>, ghost m: seq<Byte>) returns (ret: int)
    requires Working(f) && Usable(f, addr, |data|) && Whole(WiringOf(f), addr, |data|) && addr + |data| <= |m|
    requires StoreOf(f).mem == Erased(m, addr, |data|) && (data == [] || !StoreOf(f).refuses)
    modifies Repr(f)
    ensures StoreOf(f).ready && ret == 0 && StoreOf(f).refuses == old(StoreOf(f)).refuses
    ensures StoreOf(f).mem == Stored(m, addr, data)
  {
    ErasedFits(m, addr, data);
    ProgramOverErased(m, addr, data);
    StepOf(f);
    ghost var pieces, front;
    ret, pieces, front := WriteVerifyProgress(f, addr, data);
  }

  lemma StepOf(f: Flash)
    requires Working(f) && StoreOf(f).ready
    ensures IsPow2(TransferStep(f))
  {
    StepIsPow2();
  }

  /** Erase a range, then write and verify it. */
  method ProgramRange(f: Flash, addr: nat, data: seq<Byte>) returns (ret: int)
    requires Working(f) && Usable(f, addr, |data|) && (StartsBlock(f, addr) ==> StartsBlock(f, addr + |data|))
    requires StartsBlock(f, addr) || data == [] ==> Whole(WiringOf(f), addr, |data|)
    modifies Repr(f)
    ensures ret == 0 || !f.Bpi? ==> StoreOf(f).ready
    ensures ret == 0 <==> data == [] || (!old(StoreOf(f)).refuses && old(StartsBlock(f, addr)))
    ensures ret == 0 || ret == -1
    ensures StoreOf(f).mem == if ret == 0 then Stored(old(StoreOf(f)).mem, addr, data) else old(StoreOf(f)).mem
  {
    ret := EraseRange(f, addr, |data|);
    if ret != 0 {
      return -1;
    }
    ret := WriteRange(f, addr, data, old(StoreOf(f)).mem);
    if ret != 0 {
      ret := -1;
    }
  }

  // ---------------------------------------------------------------- a slot

  /** The device consists of whole blocks of the size to which lengths are rounded. */
  ghost predicate WholeDevice(f: Flash)
    reads Repr(f)
  {
    Working(f) && EraseBlock(f) >= 1 && IsPow2(EraseBlock(f)) && |StoreOf(f).mem| % EraseBlock(f) == 0
  }

  lemma DeviceIsWhole(f: Flash)
    requires Working(f) && StoreOf(f).ready && (f.Spi? ==> f.fl.size % SUBSECTOR == 0)
    ensures WholeDevice(f)
  {
    BlockIsPow2();
  }

  /** A multiple of the rounding block is the start of a block or the end of the device. */
  lemma RoundedStarts(f: Flash, x: nat)
    requires StoreOf(f).ready && WholeDevice(f) && x <= |StoreOf(f).mem| && x % EraseBlock(f) == 0
    ensures StartsBlock(f, x)
  {
    if f.Bpi? && x < |f.bp.dev.mem| {
      BpiErase.StepBoundary(f.bp.dev.regions, |f.bp.dev.mem|, f.bp.eraseBlockSize, x);
    }
  }

  /** Blocks consist of whole words. */
  lemma StartsWhole(f: Flash, x: nat)
    requires StoreOf(f).ready && x <= |StoreOf(f).mem| && StartsBlock(f, x) && f.Bpi?
    ensures x % 2 == 0
  {
    var rs, size := f.bp.dev.regions, |f.bp.dev.mem|;
    if x < size {
      var s := BpiErase.NextBoundary(rs, size, x);
      BpiErase.BlockIsEven(x, s);
    }
  }

  /** The segment buffer, if the image fits the slot and has its sync word. */
  method PrepareSlot(segmentSize: nat, image: seq<Byte>, o: Order) returns (ok: bool, segment: array<Byte>)
    requires 0x54 <= segmentSize && Orderable(segmentSize, o)
    ensures ok <==> Acceptable(image, segmentSize)
    ensures ok ==> |image| > 0x50 && segment[..] == Ordered(Padded(image, segmentSize), o) && fresh(segment)
  {
    segment := new Byte[0];
    if |image| > segmentSize {
      return false, segment;
    }
    segment := FillSegment(image, segmentSize);
    assert segment[..][0x50..0x54] == segment[0x50..0x54];
    if segment[0x50..0x54] != SYNC_WORD {
      return false, segment;
    }
    AcceptableIsLong(image, segmentSize);
    Reorder(segment, o);
    ok := true;
  }

  /** The non-dual write action: succeeds exactly for an acceptable image and a slot that starts on a block boundary
      of a device that can be written.  Then it leaves the padded image in the range up to the end of a block, and
      every other byte as it was. */
  method ProgramSlot(f: Flash, segmentOffset: nat, segmentSize: nat, image: seq<Byte>, o: Order, after: seq<Byte>)
    returns (ret: int)
    requires Working(f) && Usable(f, segmentOffset, segmentSize) && (f.Spi? ==> f.fl.size % SUBSECTOR == 0)
    requires 0x54 <= segmentSize && Orderable(segmentSize, o) && |after| >= EraseBlock(f)
    modifies Repr(f)
    ensures ret == 0 || !f.Bpi? ==> StoreOf(f).ready
    ensures ret == 0 <==>
            Acceptable(image, segmentSize) && !old(StoreOf(f)).refuses && old(StartsBlock(f, segmentOffset))
    ensures ret != 0 ==> ret == -1 && StoreOf(f).mem == old(StoreOf(f)).mem
    ensures ret == 0 ==>
              var c := SlotContents(image, segmentOffset, segmentSize, EraseBlock(f), o, after);
              && |image| <= |c| == RoundedLength(segmentOffset, |image|, EraseBlock(f))
              && segmentOffset + |c| <= |old(StoreOf(f)).mem| && (f.Bpi? ==> |c| % 2 == 0)
              && StoreOf(f).mem == Stored(old(StoreOf(f)).mem, segmentOffset, c)
    ensures ret == 0 ==>
              ImageShown(StoreOf(f).mem, segmentOffset, segmentSize, image, o,
                         RoundedLength(segmentOffset, |image|, EraseBlock(f)))
  {
    var ok, segment := PrepareSlot(segmentSize, image, o);
    if !ok {
      return -1;
    }
    ret := WriteSegment(f, segmentOffset, segmentSize, |image|, segment[..] + after);
    if ret == 0 {
      SlotShows(old(StoreOf(f)).mem, segmentOffset, segmentSize, EraseBlock(f), image, o, after);
    }
  }

  /** The first n bytes from offset on, as far as they lie in the slot, are the image and 0xff in the bit order of the
      board. */
  ghost predicate ImageShown(m: seq<Byte>, offset: nat, size: nat, image: seq<Byte>, o: Order, n: nat) {
    offset + n <= |m| && forall a | offset <= a < offset + n && a < offset + size :: Shows(m[a], image, a - offset, o)
  }

  lemma SlotShows(m: seq<Byte>, offset: nat, size: nat, block: nat, image: seq<Byte>, o: Order, after: seq<Byte>)
    requires |image| <= size && block >= 1 && Orderable(size, o)
    requires var n := RoundedLength(offset, |image|, block); n <= size + |after| && offset + n <= |m|
    ensures ImageShown(Stored(m, offset, SlotContents(image, offset, size, block, o, after)), offset, size, image, o,
                       RoundedLength(offset, |image|, block))
  {
    var n, c := RoundedLength(offset, |image|, block), SlotContents(image, offset, size, block, o, after);
    var padded := Padded(image, size);
    forall a | offset <= a < offset + n && a < offset + size
      ensures Shows(Stored(m, offset, c)[a], image, a - offset, o)
    {
      var i := a - offset;
      StoredAt(m, offset, c, a);
      OrderedShows(padded, o, i);
      PaddedShows(image, size, c[i], i, o);
    }
  }

  /** Round the length up to the end of a block, and program that much of the buffer and of what follows it. */
  method WriteSegment(f: Flash, offset: nat, ghost size: nat, n: nat, buffer: seq<Byte>) returns (ret: int)
    requires Working(f) && Usable(f, offset, size) && (f.Spi? ==> f.fl.size % SUBSECTOR == 0)
    requires 0 < n <= size && size + EraseBlock(f) <= |buffer|
    modifies Repr(f)
    ensures ret == 0 || !f.Bpi? ==> StoreOf(f).ready
    ensures ret == 0 <==> !old(StoreOf(f)).refuses && old(StartsBlock(f, offset))
    ensures ret == 0 || ret == -1
    ensures EraseBlock(f) >= 1
    ensures var len := RoundedLength(offset, n, EraseBlock(f));
            && n <= len <= |buffer| && offset + len <= |old(StoreOf(f)).mem| && (ret == 0 && f.Bpi? ==> len % 2 == 0)
            && StoreOf(f).mem == if ret == 0 then Stored(old(StoreOf(f)).mem, offset, buffer[..len])
                                 else old(StoreOf(f)).mem
  {
    var len := RoundUp(f, offset, n, size);
    ret := ProgramRange(f, offset, buffer[..len]);
  }

  /** The length to write, which is not beyond the device and ends at a block boundary. */
  method RoundUp(f: Flash, offset: nat, n: nat, ghost size: nat) returns (len: nat)
    requires Working(f) && Usable(f, offset, size) && n <= size && (f.Spi? ==> f.fl.size % SUBSECTOR == 0)
    ensures EraseBlock(f) >= 1 && len == RoundedLength(offset, n, EraseBlock(f)) && n <= len < n + EraseBlock(f)
    ensures offset + len <= |StoreOf(f).mem| && StartsBlock(f, offset + len)
    ensures StartsBlock(f, offset) ==> Whole(WiringOf(f), offset, len)
  {
    DeviceIsWhole(f);
    RoundedEnd(offset, n, EraseBlock(f), |StoreOf(f).mem|);
    len := RoundedLength(offset, n, EraseBlock(f));
    RoundedStarts(f, offset + len);
    if f.Bpi? && StartsBlock(f, offset) {
      StartsWhole(f, offset);
      StartsWhole(f, offset + len);
      WholeBetween(WiringOf(f), offset, len, offset + len);
    }
  }

  lemma WholeBetween(k: Wiring, offset: nat, len: nat, end: nat)
    requires end == offset + len && offset % 2 == 0 && end % 2 == 0
    ensures Whole(k, offset, len)
  {
  }

  // ---------------------------------------------------------------- reading a slot

  /** The length of the next piece: all that is left if it is at most 64 KiB, and otherwise up to a multiple of 64
      KiB. */
  method NextSegment(a: nat, remain: nat) returns (seg: nat)
    requires remain > 0
    ensures 0 < seg <= remain && seg <= 0x1_0000
    ensures if remain <= 0x1_0000 then seg == remain else (a + seg) % 0x1_0000 == 0
  {
    StepIsPow2();
    PieceFacts(a, remain, STEP);
    seg := Piece(a, remain, STEP);
  }

  /** flash_read_progress: the bytes of the range, in order. */
  method ReadProgress(f: Flash, addr: nat, len: nat) returns (ret: int, dest: seq<Byte>)
    requires Usable(f, addr, len)
    modifies Repr(f)
    ensures StoreOf(f).ready
    ensures ret == 0 ==> |dest| == len
    ensures Working(f) ==> ret == 0 && StoreOf(f) == old(StoreOf(f)) && addr + len <= |StoreOf(f).mem|
    ensures Working(f) ==> dest == StoreOf(f).mem[addr..addr + len]
    ensures f.Spi? ==> f.fl.dev == old(f.fl.dev)
  {
    dest, ret := [], 0;
    ghost var d := StoreOf(f);
    while |dest| < len
      invariant StoreOf(f).ready && |dest| <= len && ret == 0
      invariant Working(f) ==> StoreOf(f) == d && addr + len <= |d.mem|
      invariant Working(f) ==> dest == d.mem[addr..addr + |dest|]
      invariant f.Spi? ==> f.fl.dev == old(f.fl.dev)
    {
      var a := addr + |dest|;
      var seg := NextSegment(a, len - |dest|);
      var data;
      ret, data := FlashRead(f, a, seg);
      if ret != 0 {
        return;
      }
      if Working(f) {
        SlicesJoin(d.mem, addr, a, a + seg);
      }
      dest := dest + data;
    }
  }

  lemma SlicesJoin(m: seq<Byte>, x: nat, y: nat, z: nat)
    requires x <= y <= z <= |m|
    ensures m[x..y] + m[y..z] == m[x..z]
  {
  }

  /** The non-dual read action: the slot as it is in memory, with the bit order of the file. */
  method ReadSlot(f: Flash, segmentOffset: nat, segmentSize: nat, o: Order) returns (segment: array<Byte>)
    requires Working(f) && Usable(f, segmentOffset, segmentSize) && Orderable(segmentSize, o)
    modifies Repr(f)
    ensures StoreOf(f) == old(StoreOf(f)) && fresh(segment) && segmentOffset + segmentSize <= |StoreOf(f).mem|
    ensures segment[..] == Ordered(StoreOf(f).mem[segmentOffset..segmentOffset + segmentSize], o)
    ensures segment.Length == segmentSize
    ensures forall i | 0 <= i < segmentSize ::
              Shows(segment[i], StoreOf(f).mem[segmentOffset..segmentOffset + segmentSize], i, o)
    ensures f.Spi? ==> f.fl.dev == old(f.fl.dev)
  {
    var ret, data := ReadProgress(f, segmentOffset, segmentSize);
    segment := FillSegment(data, segmentSize);
    assert segment[..] == data;
    Reorder(segment, o);
    forall i | 0 <= i < segmentSize
      ensures Shows(segment[i], data, i, o)
    {
      OrderedShows(data, o, i);
      assert segment[i] == segment[..][i];
    }
  }

  lemma MateFacts(i: nat, n: nat)
    requires i < n && n % 2 == 0
    ensures Mate(i) < n && Mate(Mate(i)) == i
  {
  }

  lemma WordsPrefixAt(slot: seq<Byte>, padded: seq<Byte>, n: nat, i: nat)
    requires |slot| == |padded| && |slot| % 2 == 0 && n % 2 == 0 && i < n && i < |slot|
    requires forall j | 0 <= j < n && j < |slot| :: slot[j] == WordsReversed(padded)[j]
    ensures WordsReversed(slot)[i] == padded[i]
  {
    MateFacts(i, n);
    MateFacts(i, |slot|);
    var j := Mate(i);
    assert WordsReversed(slot)[i] == Reverse8(slot[j]) && WordsReversed(padded)[j] == Reverse8(padded[i]);
    Reverse8Twice(padded[i]);
  }

  /** A prefix that is not cut through a word determines the image. */
  lemma OrderedPrefix(slot: seq<Byte>, padded: seq<Byte>, o: Order, n: nat, len: nat)
    requires |slot| == |padded| && Orderable(|slot|, o) && len <= n && len <= |slot| && Orderable(n, o)
    requires forall i | 0 <= i < n && i < |slot| :: slot[i] == Ordered(padded, o)[i]
    ensures Ordered(slot, o)[..len] == padded[..len]
  {
    forall i | 0 <= i < len
      ensures Ordered(slot, o)[i] == padded[i]
    {
      match o {
        case AsIs =>
        case ByBytes => Reverse8Twice(padded[i]);
        case ByWords => WordsPrefixAt(slot, padded, n, i);
      }
    }
  }

  lemma StoredSlot(m: seq<Byte>, offset: nat, size: nat, padded: seq<Byte>, o: Order, c: seq<Byte>, len: nat)
    requires offset + size <= |m| && offset + |c| <= |m| && |padded| == size && len <= |c| && len <= size
    requires Orderable(size, o) && Orderable(|c|, o)
    requires forall i | 0 <= i < |c| && i < size :: c[i] == Ordered(padded, o)[i]
    ensures Ordered(Stored(m, offset, c)[offset..offset + size], o)[..len] == padded[..len]
  {
    var slot := Stored(m, offset, c)[offset..offset + size];
    forall i | 0 <= i < |c| && i < size
      ensures slot[i] == Ordered(padded, o)[i]
    {
      StoredAt(m, offset, c, offset + i);
    }
    OrderedPrefix(slot, padded, o, |c|, len);
  }

  /** Reading a slot that has been programmed gives the image back, whichever bit order the board uses. */
  lemma SlotRoundTrip(m: seq<Byte>, offset: nat, size: nat, block: nat, image: seq<Byte>, o: Order, after: seq<Byte>,
                      c: seq<Byte>)
    requires offset + size <= |m| && |image| <= size && IsPow2(block) && block >= 1 && |after| >= block
    requires Orderable(size, o) && c == SlotContents(image, offset, size, block, o, after)
    requires offset + |c| <= |m| && Orderable(|c|, o)
    ensures Ordered(Stored(m, offset, c)[offset..offset + size], o)[..|image|] == image
  {
    RoundedAtLeast(offset, |image|, block);
    var padded := Padded(image, size);
    assert padded[..|image|] == image;
    StoredSlot(m, offset, size, padded, o, c, |image|);
  }

  lemma RoundedAtLeast(offset: nat, len: nat, block: nat)
    requires IsPow2(block)
    ensures block >= 1 && len <= RoundedLength(offset, len, block) < len + block
  {
    MaskIsMod(offset + len, block);
  }
}
