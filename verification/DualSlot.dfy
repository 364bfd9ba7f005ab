/** Programming and reading a slot that is spread over two flash devices. */
module DualSlot {
  import opened Bits
  import opened Bytes
  import opened NorMemory
  import opened SpiDevice
  import opened SpiDriver
  import opened SpiCommands
  import opened FlashErase
  import opened FlashVerify
  import opened FlashSlot
  import opened BitReversal
  import opened DualQspi

  function Encoded(s: seq<Byte>, bitswap: bool): (r: seq<Byte>)
    ensures |r| == |s|
  {
    if bitswap then Reversed(s) else s
  }

  /** Padding before or after the bit reversal gives the same segment. */
  lemma PaddingCommutes(image: seq<Byte>, n: nat, bitswap: bool)
    requires |image| <= n
    ensures Encoded(Padded(image, n), bitswap) == Padded(Encoded(image, bitswap), n)
  {
    if bitswap {
      Reverse8Twice(0);
    }
  }

  /** The segment before it is split. */
  function Segment(image: seq<Byte>, size: nat, bitswap: bool): (r: seq<Byte>)
    requires |image| <= size
    ensures |r| == size
  {
    Encoded(Padded(image, size), bitswap)
  }

  function OrderOf(bitswap: bool): Order { if bitswap then ByBytes else AsIs }

  lemma EncodedShows(s: seq<Byte>, bitswap: bool)
    ensures forall i | 0 <= i < |s| :: Shows(Encoded(s, bitswap)[i], s, i, OrderOf(bitswap))
  {
    forall i | 0 <= i < |s|
      ensures Shows(Encoded(s, bitswap)[i], s, i, OrderOf(bitswap))
    {
      OrderedShows(s, OrderOf(bitswap), i);
    }
  }

  /** The segment is the image and 0xff, each byte turned round if the board needs it. */
  lemma SegmentShows(image: seq<Byte>, size: nat, bitswap: bool)
    requires |image| <= size
    ensures forall i | 0 <= i < size :: Shows(Segment(image, size, bitswap)[i], image, i, OrderOf(bitswap))
  {
    EncodedShows(Padded(image, size), bitswap);
    forall i | 0 <= i < size
      ensures Shows(Segment(image, size, bitswap)[i], image, i, OrderOf(bitswap))
    {
      PaddedShows(image, size, Segment(image, size, bitswap)[i], i, OrderOf(bitswap));
    }
  }

  /** The image is acceptable and has a second sync word where both devices have joined in. */
  ghost predicate AcceptableDual(image: seq<Byte>, size: nat, bitswap: bool) {
    Acceptable(image, size) && 0x74 <= size && Segment(image, size, bitswap)[0x70..0x74] == [0xAA, 0x99, 0x55, 0x66]
  }

  /** How much of each half is erased and written: len_int after rounding to whole blocks. */
  function HalfWritten(len: nat, offset: nat, size: nat): nat {
    RoundedLength(offset / 2, HalfLength(len, size), SUBSECTOR)
  }

  /** Each device's part of the slot starts on a block boundary.  Otherwise nothing can be erased. */
  predicate StartsOnBlock(offset: nat) { (offset / 2) % SUBSECTOR == 0 }

  lemma HalfWrittenFacts(len: nat, offset: nat, size: nat, top: nat)
    requires Splittable(size) && len <= size && offset / 2 + size / 2 <= top && top % SUBSECTOR == 0
    ensures var w := HalfWritten(len, offset, size);
            && 0 < HalfLength(len, size) <= w < HalfLength(len, size) + SUBSECTOR && offset / 2 + w <= top
            && w < size / 2 + SUBSECTOR && (StartsOnBlock(offset) ==> w % SUBSECTOR == 0)
  {
    BlockIsPow2();
    HalfLengthIsShortIff(len, size);
    RoundedEnd(offset / 2, HalfLength(len, size), SUBSECTOR, top);
    if StartsOnBlock(offset) {
      MultipleDrops(offset / 2, HalfWritten(len, offset, size), SUBSECTOR);
    }
  }

  lemma HalfRounding(len: nat, offset: nat, size: nat)
    requires StartsOnBlock(offset)
    ensures var h, m := HalfLength(len, size), HalfLength(len, size) % SUBSECTOR;
            HalfWritten(len, offset, size) == if m != 0 then h + (SUBSECTOR - m) else h
  {
    BlockIsPow2();
    MaskOfSum(offset / 2, HalfLength(len, size), SUBSECTOR);
  }

  /** The written part misses a byte of the image exactly when its length is odd and the unrounded length is a
      whole number of blocks. */
  lemma HalfWrittenIsShortIff(len: nat, offset: nat, size: nat)
    requires StartsOnBlock(offset) && Splittable(size) && len <= size
    ensures Needed(len, size) <= HalfWritten(len, offset, size)
       <==> !(OFFSET < len <= size - OFFSET && len % 2 == 1 && HalfLength(len, size) % SUBSECTOR == 0)
  {
    HalfRounding(len, offset, size);
    HalfLengthIsShortIff(len, size);
  }

  /** The rounded length stays inside the slot and inside the buffers, for every image, exactly when half the slot is a
      whole number of blocks. */
  lemma HalfStaysInsideIff(offset: nat, size: nat)
    requires StartsOnBlock(offset) && Splittable(size)
    ensures (forall len | 0 <= len <= size :: HalfWritten(len, offset, size) <= size / 2)
       <==> (size / 2) % SUBSECTOR == 0
  {
    if (size / 2) % SUBSECTOR == 0 {
      forall len | 0 <= len <= size
        ensures HalfWritten(len, offset, size) <= size / 2
      {
        HalfStaysInside(len, offset, size);
      }
    } else {
      HalfRounding(size, offset, size);
      assert HalfLength(size, size) == size / 2;
      assert HalfWritten(size, offset, size) > size / 2;
    }
  }

  lemma HalfStaysInside(len: nat, offset: nat, size: nat)
    requires StartsOnBlock(offset) && Splittable(size) && (size / 2) % SUBSECTOR == 0 && len <= size
    ensures HalfWritten(len, offset, size) <= size / 2
  {
    BlockIsPow2();
    HalfLengthIsShortIff(len, size);
    RoundedLengthFacts(offset / 2, HalfLength(len, size), SUBSECTOR, size / 2);
  }

  /** A slot of an odd number of blocks, such as one of 0x1003000 bytes (k == 0x801), is left by a full image. */
  lemma OddSlotOverruns(k: nat, size: nat)
    requires k > 0 && size == SUBSECTOR * (2 * k + 1)
    ensures HalfWritten(size, 0, size) > size / 2
  {
    var h := SUBSECTOR / 2;
    assert size / 2 == k * SUBSECTOR + h;
    ModUnique(size / 2, SUBSECTOR, k, h);
    HalfRounding(size, 0, size);
    assert HalfLength(size, size) == size / 2;
  }

  /** The sync word is checked at both places before anything is erased. */
  method PrepareDual(segmentSize: nat, image: seq<Byte>, bitswap: bool) returns (ok: bool, segment: seq<Byte>)
    requires 0x74 <= segmentSize
    ensures ok <==> AcceptableDual(image, segmentSize, bitswap)
    ensures ok ==> segment == Segment(image, segmentSize, bitswap)
  {
    if |image| > segmentSize {
      return false, [];
    }
    var buf := FillSegment(image, segmentSize);
    assert buf[..][0x50..0x54] == buf[0x50..0x54];
    if buf[0x50..0x54] != SYNC_WORD {
      return false, [];
    }
    if bitswap {
      ReverseInPlace(buf);
    }
    segment := buf[..];
    ok := segment[0x70..0x74] == SYNC_WORD;
  }

  /** Erase both devices, then write and verify both.  A secondary device that cannot be written is noticed only after
      the primary one has been erased. */
  method ProgramHalves(pri: SpiFlash, sec: SpiFlash, addr: nat, p: seq<Byte>, s: seq<Byte>) returns (ret: int)
    requires pri != sec && Valid(pri) && Valid(sec) && addr + |p| <= pri.size && addr + |p| <= sec.size
    requires |p| == |s| > 0 && (addr % SUBSECTOR == 0 ==> |p| % SUBSECTOR == 0)
    modifies pri, sec
    ensures Valid(pri) && Valid(sec)
    ensures ret == 0 <==> addr % SUBSECTOR == 0 && !old(pri.dev).locked && !old(sec.dev).locked
    ensures pri.dev.mem ==
            if addr % SUBSECTOR != 0 || old(pri.dev).locked then old(pri.dev).mem
            else if old(sec.dev).locked then Erased(old(pri.dev).mem, addr, |p|)
            else Stored(old(pri.dev).mem, addr, p)
    ensures sec.dev.mem == if ret == 0 then Stored(old(sec.dev).mem, addr, s) else old(sec.dev).mem
  {
    ret := EraseRange(Spi(pri), addr, |p|);
    if ret != 0 {
      return -1;
    }
    ret := EraseRange(Spi(sec), addr, |s|);
    if ret != 0 {
      return -1;
    }
    ret := WriteRange(Spi(pri), addr, p, old(pri.dev.mem));
    if ret != 0 {
      return -1;
    }
    ret := WriteRange(Spi(sec), addr, s, old(sec.dev.mem));
    if ret != 0 {
      ret := -1;
    }
  }

  /** What is left on the two devices by the write action. */
  ghost predicate ProgrammedDual(pm: seq<Byte>, sm: seq<Byte>, pm0: seq<Byte>, sm0: seq<Byte>, addr: nat, p: seq<Byte>,
                                 s: seq<Byte>, w: nat) {
    && |pm0| >= addr + w && |sm0| >= addr + w && w <= |p| && w <= |s|
    && pm == Stored(pm0, addr, p[..w]) && sm == Stored(sm0, addr, s[..w])
  }

  /** The dual write action.  Nothing is written unless the slot starts on a block boundary of both devices.  If the
      rounded length exceeds half the slot, what is written beyond it is whatever follows the two buffers in memory. */
  method ProgramDual(pri: SpiFlash, sec: SpiFlash, segmentOffset: nat, segmentSize: nat, image: seq<Byte>,
                     bitswap: bool, afterPri: seq<Byte>, afterSec: seq<Byte>)
    returns (ret: int, ghost p: seq<Byte>, ghost s: seq<Byte>)
    requires pri != sec && Valid(pri) && Valid(sec) && Splittable(segmentSize)
    requires segmentOffset / 2 + segmentSize / 2 <= pri.size && pri.size % SUBSECTOR == 0
    requires segmentOffset / 2 + segmentSize / 2 <= sec.size && sec.size % SUBSECTOR == 0
    requires |afterPri| >= SUBSECTOR && |afterSec| >= SUBSECTOR
    modifies pri, sec
    ensures Valid(pri) && Valid(sec)
    ensures ret == 0 <==> && AcceptableDual(image, segmentSize, bitswap) && StartsOnBlock(segmentOffset)
                          && !old(pri.dev).locked && !old(sec.dev).locked
    ensures ret != 0 ==> sec.dev.mem == old(sec.dev).mem
    ensures !(AcceptableDual(image, segmentSize, bitswap) && StartsOnBlock(segmentOffset) && !old(pri.dev).locked) ==>
              pri.dev.mem == old(pri.dev).mem
    ensures ret == 0 ==>
              && IsSplit(p, s, Segment(image, segmentSize, bitswap))
              && forall i | 0 <= i < segmentSize ::
                   Shows(Segment(image, segmentSize, bitswap)[i], image, i, OrderOf(bitswap))
    ensures ret == 0 ==> ProgrammedDual(pri.dev.mem, sec.dev.mem, old(pri.dev).mem, old(sec.dev).mem, segmentOffset / 2,
                                        p + afterPri, s + afterSec, HalfWritten(|image|, segmentOffset, segmentSize))
  {
    p, s := [], [];
    var ok, segment := PrepareDual(segmentSize, image, bitswap);
    if !ok {
      return -1, p, s;
    }
    HalfWrittenFacts(|image|, segmentOffset, segmentSize, pri.size);
    HalfWrittenFacts(|image|, segmentOffset, segmentSize, sec.size);
    SegmentShows(image, segmentSize, bitswap);
    var priBuf, secBuf := Split(segment);
    p, s := priBuf[..], secBuf[..];
    var w := HalfWritten(|image|, segmentOffset, segmentSize);
    ret := ProgramHalves(pri, sec, segmentOffset / 2, (priBuf[..] + afterPri)[..w], (secBuf[..] + afterSec)[..w]);
  }

  /** Whatever is on the devices and whatever follows the buffers, programming changes nothing behind the slot. */
  ghost predicate KeepsNextSlot(a: nat, h: nat, p: seq<Byte>, s: seq<Byte>, w: nat) {
    forall pm0, sm0, pm, sm, afterPri, afterSec |
      && a + h <= |pm0| && a + h <= |sm0| && ProgrammedDual(pm, sm, pm0, sm0, a, p + afterPri, s + afterSec, w)
      :: pm[a + h..] == pm0[a + h..] && sm[a + h..] == sm0[a + h..]
  }

  /** The slots behind this one are safe from every image exactly when half of this one is a whole number of blocks. */
  lemma KeepsNextSlotIff(offset: nat, size: nat, p: seq<Byte>, s: seq<Byte>)
    requires StartsOnBlock(offset) && Splittable(size) && |p| == |s| == size / 2
    ensures (forall len | 0 <= len <= size :: KeepsNextSlot(offset / 2, size / 2, p, s, HalfWritten(len, offset, size)))
            <==> (size / 2) % SUBSECTOR == 0
  {
    var a, h := offset / 2, size / 2;
    HalfStaysInsideIff(offset, size);
    forall len | 0 <= len <= size
      ensures KeepsNextSlot(a, h, p, s, HalfWritten(len, offset, size)) <==> HalfWritten(len, offset, size) <= h
    {
      KeptIff(a, h, p, s, HalfWritten(len, offset, size));
    }
  }

  lemma KeptIff(a: nat, h: nat, p: seq<Byte>, s: seq<Byte>, w: nat)
    requires |p| == |s| == h
    ensures KeepsNextSlot(a, h, p, s, w) <==> w <= h
  {
    if w <= h {
      forall m: seq<Byte>, d: seq<Byte> | a + h <= |m| && |d| == w
        ensures Stored(m, a, d)[a + h..] == m[a + h..]
      {
      }
    } else {
      var m, after := seq(a + w, _ => ERASED), seq(w - h, _ => 0x00);
      var pm, sm := Stored(m, a, (p + after)[..w]), Stored(m, a, (s + after)[..w]);
      assert ProgrammedDual(pm, sm, m, m, a, p + after, s + after, w);
      assert pm[a + h..][0] == 0x00 && m[a + h..][0] == ERASED;
    }
  }

  method ReadHalf(fl: SpiFlash, addr: nat, len: nat) returns (data: seq<Byte>)
    requires Valid(fl) && addr + len <= fl.size
    modifies fl
    ensures fl.dev == old(fl.dev) && Valid(fl) && data == fl.dev.mem[addr..addr + len]
  {
    var ret;
    ret, data := ReadProgress(Spi(fl), addr, len);
  }

  method MergeEncoded(p: seq<Byte>, s: seq<Byte>, bitswap: bool) returns (segment: array<Byte>, ghost merged: seq<Byte>)
    requires |p| == |s| && Splittable(2 * |p|)
    ensures fresh(segment) && IsMerge(merged, p, s) && segment[..] == Encoded(merged, bitswap)
  {
    segment := Merge(p, s);
    merged := segment[..];
    if bitswap {
      ReverseInPlace(segment);
    }
  }

  /** The dual read action. */
  method ReadDual(pri: SpiFlash, sec: SpiFlash, segmentOffset: nat, segmentSize: nat, bitswap: bool)
    returns (segment: array<Byte>, ghost merged: seq<Byte>)
    requires pri != sec && Valid(pri) && Valid(sec) && Splittable(segmentSize)
    requires segmentOffset / 2 + segmentSize / 2 <= pri.size && segmentOffset / 2 + segmentSize / 2 <= sec.size
    modifies pri, sec
    ensures pri.dev == old(pri.dev) && sec.dev == old(sec.dev) && fresh(segment)
    ensures MergedFrom(merged, pri.dev.mem, sec.dev.mem, segmentOffset / 2, segmentSize / 2)
            && segment[..] == Encoded(merged, bitswap)
    ensures forall i | 0 <= i < segment.Length :: Shows(segment[i], merged, i, OrderOf(bitswap))
  {
    var a, h := segmentOffset / 2, segmentSize / 2;
    var p, s := ReadHalves(pri, sec, a, h);
    segment, merged := MergeEncoded(p, s, bitswap);
    EncodedShows(merged, bitswap);
    assert forall i | 0 <= i < segment.Length :: segment[i] == segment[..][i];
    MergedHalves(merged, pri.dev.mem, sec.dev.mem, a, h, p, s);
  }

  method ReadHalves(pri: SpiFlash, sec: SpiFlash, a: nat, h: nat) returns (p: seq<Byte>, s: seq<Byte>)
    requires pri != sec && Valid(pri) && Valid(sec) && a + h <= pri.size && a + h <= sec.size
    modifies pri, sec
    ensures pri.dev == old(pri.dev) && sec.dev == old(sec.dev)
    ensures a + h <= |pri.dev.mem| && a + h <= |sec.dev.mem| && p == pri.dev.mem[a..a + h] && s == sec.dev.mem[a..a + h]
  {
    p := ReadHalf(pri, a, h);
    s := ReadHalf(sec, a, h);
  }

  lemma MergedHalves(merged: seq<Byte>, pm: seq<Byte>, sm: seq<Byte>, a: nat, h: nat, p: seq<Byte>, s: seq<Byte>)
    requires a + h <= |pm| && a + h <= |sm| && h >= OFFSET && p == pm[a..a + h] && s == sm[a..a + h]
             && IsMerge(merged, p, s)
    ensures MergedFrom(merged, pm, sm, a, h)
  {
  }

  /** Whatever was on the devices before, and whatever follows the buffers in memory, reading the slot back after
      programming it gives the image. */
  ghost predicate SurvivesDual(offset: nat, size: nat, image: seq<Byte>, bitswap: bool, p: seq<Byte>, s: seq<Byte>) {
    SurvivesHalves(offset / 2, size / 2, HalfWritten(|image|, offset, size), image, bitswap, p, s)
  }

  ghost predicate SurvivesHalves(a: nat, h: nat, w: nat, image: seq<Byte>, bitswap: bool, p: seq<Byte>, s: seq<Byte>) {
    forall pm0, sm0, pm, sm, afterPri, afterSec, merged |
      ReadAgain(a, h, w, p, s, pm0, sm0, pm, sm, afterPri, afterSec, merged)
      :: Decodes(merged, h, image, bitswap)
  }

  /** Two devices that held pm0 and sm0 were programmed with w bytes each of the halves, and then the slot was read. */
  ghost predicate ReadAgain(a: nat, h: nat, w: nat, p: seq<Byte>, s: seq<Byte>, pm0: seq<Byte>, sm0: seq<Byte>,
                            pm: seq<Byte>, sm: seq<Byte>, afterPri: seq<Byte>, afterSec: seq<Byte>, merged: seq<Byte>) {
    && a + h <= |pm0| && a + h <= |sm0| && ProgrammedDual(pm, sm, pm0, sm0, a, p + afterPri, s + afterSec, w)
    && MergedFrom(merged, pm, sm, a, h)
  }

  ghost predicate Decodes(merged: seq<Byte>, h: nat, image: seq<Byte>, bitswap: bool) {
    |merged| == 2 * h && |image| <= |merged| && Encoded(merged, bitswap)[..|image|] == image
  }

  ghost predicate MergedFrom(merged: seq<Byte>, pm: seq<Byte>, sm: seq<Byte>, a: nat, h: nat) {
    && a + h <= |pm| && a + h <= |sm| && h >= OFFSET && IsMerge(merged, pm[a..a + h], sm[a..a + h])
  }

  /** The dual round trip: an image survives exactly when it does not have an odd length whose unrounded half is a whole
      number of blocks, and nothing but 0xff reaches into the last 0x68 bytes of the slot. */
  lemma DualRoundTrip(offset: nat, size: nat, image: seq<Byte>, bitswap: bool, p: seq<Byte>, s: seq<Byte>)
    requires StartsOnBlock(offset) && |image| <= size && Splittable(size)
             && IsSplit(p, s, Segment(image, size, bitswap))
    ensures SurvivesDual(offset, size, image, bitswap, p, s) <==>
            && !(OFFSET < |image| <= size - OFFSET && |image| % 2 == 1
                && HalfLength(|image|, size) % SUBSECTOR == 0)
            && TailErased(Segment(image, size, bitswap), |image|)
  {
    HalfWrittenIsShortIff(|image|, offset, size);
    WrittenSurvivesIff(offset / 2, size / 2, size, HalfWritten(|image|, offset, size), image, bitswap, p, s);
  }

  /** Whatever was written survives exactly when it is enough and the tail is erased. */
  lemma WrittenSurvivesIff(a: nat, h: nat, size: nat, w: nat, image: seq<Byte>, bitswap: bool, p: seq<Byte>,
                           s: seq<Byte>)
    requires size == 2 * h && |image| <= size && Splittable(size) && IsSplit(p, s, Segment(image, size, bitswap))
    ensures SurvivesHalves(a, h, w, image, bitswap, p, s)
       <==> Needed(|image|, size) <= w && TailErased(Segment(image, size, bitswap), |image|)
  {
    NeededIsHalf(|image|, size);
    HalvesSufficeIff(Segment(image, size, bitswap), p, s, InSlot(w, h), |image|);
    SurvivesIffSuffices(a, h, w, image, bitswap, p, s);
  }

  lemma SurvivesIffSuffices(a: nat, h: nat, w: nat, image: seq<Byte>, bitswap: bool, p: seq<Byte>, s: seq<Byte>)
    requires |image| <= 2 * h && Splittable(2 * h) && IsSplit(p, s, Segment(image, 2 * h, bitswap))
    ensures SurvivesHalves(a, h, w, image, bitswap, p, s)
       <==> HalvesSuffice(Segment(image, 2 * h, bitswap), p, s, InSlot(w, h), |image|)
  {
    if HalvesSuffice(Segment(image, 2 * h, bitswap), p, s, InSlot(w, h), |image|) {
      SufficientSurvives(a, h, w, image, bitswap, p, s);
    }
    if SurvivesHalves(a, h, w, image, bitswap, p, s) {
      SurvivingSuffices(a, h, w, image, bitswap, p, s);
    }
  }

  /** How much of what is written lies in the slot. */
  function InSlot(w: nat, h: nat): nat { if w <= h then w else h }

  lemma NeededIsHalf(len: nat, size: nat)
    requires Splittable(size) && len <= size
    ensures Needed(len, size) <= size / 2
  {
  }

  lemma SufficientSurvives(a: nat, h: nat, w: nat, image: seq<Byte>, bitswap: bool, p: seq<Byte>, s: seq<Byte>)
    requires |image| <= 2 * h && Splittable(2 * h) && IsSplit(p, s, Segment(image, 2 * h, bitswap))
    requires HalvesSuffice(Segment(image, 2 * h, bitswap), p, s, InSlot(w, h), |image|)
    ensures SurvivesHalves(a, h, w, image, bitswap, p, s)
  {
    forall pm0, sm0, pm, sm, afterPri, afterSec, merged |
      ReadAgain(a, h, w, p, s, pm0, sm0, pm, sm, afterPri, afterSec, merged)
      ensures Decodes(merged, h, image, bitswap)
    {
      SufficientDecoded(a, h, w, image, bitswap, p, s, pm0, sm0, pm, sm, afterPri, afterSec, merged);
    }
  }

  lemma SufficientDecoded(a: nat, h: nat, w: nat, image: seq<Byte>, bitswap: bool, p: seq<Byte>, s: seq<Byte>,
                          pm0: seq<Byte>, sm0: seq<Byte>, pm: seq<Byte>, sm: seq<Byte>, afterPri: seq<Byte>,
                          afterSec: seq<Byte>, merged: seq<Byte>)
    requires |image| <= 2 * h && Splittable(2 * h) && IsSplit(p, s, Segment(image, 2 * h, bitswap))
    requires HalvesSuffice(Segment(image, 2 * h, bitswap), p, s, InSlot(w, h), |image|)
    requires ReadAgain(a, h, w, p, s, pm0, sm0, pm, sm, afterPri, afterSec, merged)
    ensures Decodes(merged, h, image, bitswap)
  {
    HalvesAgree(pm0, sm0, pm, sm, a, h, p, s, afterPri, afterSec, w);
    SufficientPrefix(Segment(image, 2 * h, bitswap), p, s, InSlot(w, h), |image|, merged, pm[a..a + h], sm[a..a + h]);
    PrefixDecoded(merged, image, 2 * h, bitswap);
  }

  lemma SufficientPrefix(segment: seq<Byte>, pri: seq<Byte>, sec: seq<Byte>, n: nat, len: nat, m: seq<Byte>,
                         p: seq<Byte>,
                         s: seq<Byte>)
    requires Splittable(|segment|) && IsSplit(pri, sec, segment) && len <= |segment|
             && HalvesSuffice(segment, pri, sec, n, len)
    requires AgreeUpTo(p, pri, n) && AgreeUpTo(s, sec, n) && IsMerge(m, p, s)
    ensures |m| == |segment| && m[..len] == segment[..len]
  {
  }

  lemma HalvesAgree(pm0: seq<Byte>, sm0: seq<Byte>, pm: seq<Byte>, sm: seq<Byte>, a: nat, h: nat, p: seq<Byte>,
                    s: seq<Byte>,
                    afterPri: seq<Byte>, afterSec: seq<Byte>, w: nat)
    requires |p| == |s| == h && a + h <= |pm0| && a + h <= |sm0|
    requires ProgrammedDual(pm, sm, pm0, sm0, a, p + afterPri, s + afterSec, w)
    ensures |pm| == |pm0| && |sm| == |sm0|
    ensures AgreeUpTo(pm[a..a + h], p, InSlot(w, h)) && AgreeUpTo(sm[a..a + h], s, InSlot(w, h))
  {
    StoredAgrees(pm0, a, h, p, afterPri, w);
    StoredAgrees(sm0, a, h, s, afterSec, w);
  }

  lemma SurvivingSuffices(a: nat, h: nat, w: nat, image: seq<Byte>, bitswap: bool, p: seq<Byte>, s: seq<Byte>)
    requires |image| <= 2 * h && Splittable(2 * h) && IsSplit(p, s, Segment(image, 2 * h, bitswap))
    requires SurvivesHalves(a, h, w, image, bitswap, p, s)
    ensures HalvesSuffice(Segment(image, 2 * h, bitswap), p, s, InSlot(w, h), |image|)
  {
    var n := InSlot(w, h);
    forall p', s', m | AgreeUpTo(p', p, n) && AgreeUpTo(s', s, n) && IsMerge(m, p', s')
      ensures m[..|image|] == Segment(image, 2 * h, bitswap)[..|image|]
    {
      var pm0, afterPri := MemoryWith(a, p', p, w);
      var sm0, afterSec := MemoryWith(a, s', s, w);
      var pm, sm := Stored(pm0, a, (p + afterPri)[..w]), Stored(sm0, a, (s + afterSec)[..w]);
      assert ReadAgain(a, h, w, p, s, pm0, sm0, pm, sm, afterPri, afterSec, m);
      PrefixEncoded(m, image, 2 * h, bitswap);
    }
  }

  /** A device on which programming leaves p' in the slot. */
  lemma MemoryWith(a: nat, p': seq<Byte>, p: seq<Byte>, w: nat) returns (m: seq<Byte>, after: seq<Byte>)
    requires AgreeUpTo(p', p, InSlot(w, |p|))
    ensures |m| >= a + |p'| && |m| >= a + w && w <= |p + after|
    ensures Stored(m, a, (p + after)[..w])[a..a + |p'|] == p'
  {
    after := if w <= |p| then [] else seq(w - |p|, _ => ERASED);
    m := seq(a, _ => ERASED) + p' + after;
    var d := (p + after)[..w];
    var r := Stored(m, a, d)[a..a + |p'|];
    forall i | 0 <= i < |p'|
      ensures r[i] == p'[i]
    {
      StoredAt(m, a, d, a + i);
      if i < w {
        AgreeAt(p', p, InSlot(w, |p|), i);
      }
    }
  }

  lemma PrefixEncoded(merged: seq<Byte>, image: seq<Byte>, size: nat, bitswap: bool)
    requires |image| <= size == |merged| && Encoded(merged, bitswap)[..|image|] == image
    ensures merged[..|image|] == Segment(image, size, bitswap)[..|image|]
  {
    var n := |image|;
    PaddingCommutes(image, size, bitswap);
    assert Padded(Encoded(image, bitswap), size)[..n] == Encoded(image, bitswap);
    if bitswap {
      assert Reversed(merged)[..n] == Reversed(merged[..n]);
      ReversedTwice(merged[..n]);
    }
  }

  /** For example, an image of 8089 bytes (k == 1) loses its last byte. */
  lemma LostByte(k: nat, image: seq<Byte>, bitswap: bool, p: seq<Byte>, s: seq<Byte>)
    requires k > 0 && |image| == 2 * SUBSECTOR * k - OFFSET + 1
    requires IsSplit(p, s, Segment(image, 4 * SUBSECTOR * k, bitswap))
    ensures !SurvivesDual(0, 4 * SUBSECTOR * k, image, bitswap, p, s)
  {
    LostSizes(k, |image|);
    DualRoundTrip(0, 4 * SUBSECTOR * k, image, bitswap, p, s);
  }

  lemma LostSizes(k: nat, len: nat)
    requires k > 0 && len == 2 * SUBSECTOR * k - OFFSET + 1
    ensures var size := 4 * SUBSECTOR * k;
            && Splittable(size) && OFFSET < len <= size - OFFSET && len % 2 == 1
            && HalfLength(len, size) % SUBSECTOR == 0
  {
    var n := SUBSECTOR * k;
    ModUnique(n, SUBSECTOR, k, 0);
    ModUnique(2 * n, SUBSECTOR, 2 * k, 0);
    LostHalf(n, len);
  }

  lemma LostHalf(n: nat, len: nat)
    requires n >= OFFSET && len == 2 * n - OFFSET + 1
    ensures HalfLength(len, 4 * n) == n && (4 * n) / 2 == 2 * n && (4 * n) % 2 == 0 && len % 2 == 1
  {
  }

  lemma StoredAgrees(m: seq<Byte>, a: nat, h: nat, p: seq<Byte>, after: seq<Byte>, w: nat)
    requires |p| == h && a + h <= |m| && w <= |p + after| && a + w <= |m|
    ensures AgreeUpTo(Stored(m, a, (p + after)[..w])[a..a + h], p, InSlot(w, h))
  {
    var d, n := (p + after)[..w], InSlot(w, h);
    var r := Stored(m, a, d)[a..a + h];
    forall i | 0 <= i < n
      ensures r[i] == p[i]
    {
      StoredAt(m, a, d, a + i);
    }
    assert r[..n] == p[..n];
  }

  lemma PrefixDecoded(merged: seq<Byte>, image: seq<Byte>, size: nat, bitswap: bool)
    requires |image| <= size == |merged| && merged[..|image|] == Segment(image, size, bitswap)[..|image|]
    ensures Encoded(merged, bitswap)[..|image|] == image
  {
    var n := |image|;
    PaddingCommutes(image, size, bitswap);
    assert Padded(Encoded(image, bitswap), size)[..n] == Encoded(image, bitswap);
    if bitswap {
      ReversedTwice(image);
      assert Reversed(merged)[..n] == Reversed(merged[..n]);
    }
  }
}
