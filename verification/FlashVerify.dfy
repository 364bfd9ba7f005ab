/** Writing with verification, on a device that works and on one that may do anything. */
module FlashVerify {
  import opened Bits
  import opened Bytes
  import opened NorMemory
  import opened SpiDevice
  import opened SpiDriver
  import opened SpiCommands
  import opened FlashErase
  import BpiDevice
  import BpiDriver
  import BpiCommands
  import BpiTransfer
  import BpiErase

  /** What an unreliable device answers to one call. */
  datatype Answer = Answer(ret: int, data: seq<Byte>)

  /** A device about which nothing is known: its n-th call is answered by `answers(n)`. */
  class UnreliableFlash {
    var calls: nat
    const answers: nat -> Answer
    const writeBufferSize: nat

    constructor (answers: nat -> Answer, writeBufferSize: nat)
      ensures this.answers == answers && this.writeBufferSize == writeBufferSize && calls == 0
    {
      this.answers := answers;
      this.writeBufferSize := writeBufferSize;
      calls := 0;
    }
  }

  /** A flash device is driven through its driver's function table. */
  datatype Flash = Spi(fl: SpiFlash) | Bpi(bp: BpiDriver.BpiFlash) | Unreliable(port: UnreliableFlash)

  function Repr(f: Flash): set<object> {
    match f case Spi(fl) => {fl} case Bpi(bp) => {bp} case Unreliable(port) => {port}
  }

  predicate Working(f: Flash) { !f.Unreliable? }

  /** What a device holds, whether it refuses to be changed, whether the driver's idea of it is right and it is
      ready for a command, and everything else about it that reading and writing keep. */
  datatype Store = Store(mem: seq<Byte>, refuses: bool, ready: bool, rest: Rest)
  datatype Rest = SpiRest(d: Dev) | BpiRest(b: BpiDevice.Dev) | Nothing

  ghost function StoreOf(f: Flash): Store
    reads Repr(f)
  {
    match f
    case Spi(fl) => Store(fl.dev.mem, fl.dev.locked, Valid(fl), SpiRest(fl.dev.(wel := false, mem := [])))
    case Bpi(bp) => Store(bp.dev.mem, bp.dev.fails, BpiCommands.Valid(bp)
        && BpiErase.Mapped(bp), BpiRest(BpiKept(bp.dev)))
    case Unreliable(_) => Store([], false, true, Nothing)
  }

  ghost predicate Usable(f: Flash, addr: nat, n: nat)
    reads Repr(f)
  {
    StoreOf(f).ready && (Working(f) ==> addr + n <= |StoreOf(f).mem|)
  }

  ghost function BpiKept(d: BpiDevice.Dev): BpiDevice.Dev {
    d.(mem := [], phase := BpiDevice.Idle, status := false, busy := 0, err := 0, toggle := false, erasing := false,
         open := {})
  }

  function WriteBufferSize(f: Flash): nat {
    match f case Spi(_) => PAGE case Bpi(bp) => bp.writeBufferSize case Unreliable(port) => port.writeBufferSize
  }

  /** The step of the transfer loops: the write buffer if it is larger than 64 KiB. */
  function TransferStep(f: Flash): nat { if WriteBufferSize(f) > 0x1_0000 then WriteBufferSize(f) else 0x1_0000 }

  /** How often an unreliable device has been called. */
  ghost function Calls(f: Flash): nat
    reads Repr(f)
  {
    if f.Unreliable? then f.port.calls else 0
  }

  /** The first n of four calls from c on return 0. */
  ghost predicate ReturnZero(answers: nat -> Answer, c: nat, n: nat) {
    && (n > 0 ==> answers(c).ret == 0) && (n > 1 ==> answers(c + 1).ret == 0)
    && (n > 2 ==> answers(c + 2).ret == 0) && (n > 3 ==> answers(c + 3).ret == 0)
  }

  // ---------------------------------------------------------------- what a write does

  /** The kinds of device that work, as far as writing is concerned. */
  datatype Wiring = Serial | Parallel(size: nat)

  function WiringOf(f: Flash): Wiring { if f.Bpi? then Parallel(f.bp.writeBufferSize) else Serial }

  predicate Proper(k: Wiring) { k.Parallel? ==> k.size >= 1 }

  /** What a write to a device that accepts it does, and whether the driver reports success. */
  ghost function Effect(k: Wiring, m: seq<Byte>, addr: nat, data: seq<Byte>): BpiTransfer.Outcome
    requires Proper(k)
  {
    match k
    case Serial => BpiTransfer.Outcome(true, Programmed(m, addr, data))
    case Parallel(size) => BpiTransfer.Written(m, addr, data, size)
  }

  /** A serial flash takes every range; a parallel one takes whole words. */
  predicate Whole(k: Wiring, addr: nat, n: nat) { k.Parallel? ==> addr % 2 == 0 && n % 2 == 0 }

  /** Whole words are programmed as they are. */
  lemma WholeEffect(k: Wiring, m: seq<Byte>, addr: nat, data: seq<Byte>)
    requires Proper(k) && Whole(k, addr, |data|)
    ensures Effect(k, m, addr, data) == BpiTransfer.Outcome(true, Programmed(m, addr, data))
  {
    if k.Parallel? {
      assert data[..BpiTransfer.Even(|data|)] == data;
    }
  }

  /** How a write ends: a device that refuses does nothing. */
  ghost predicate Wrote(ret: int, g: Store, d: Store, k: Wiring, addr: nat, src: seq<Byte>)
    requires Proper(k)
  {
    var w := Effect(k, d.mem, addr, src);
    && (ret == 0 <==> src == [] || (!d.refuses && w.ok))
    && g == d.(mem := if d.refuses || src == [] then d.mem else w.mem, ready := g.ready)
  }

  method FlashWrite(f: Flash, addr: nat, src: seq<Byte>) returns (ret: int)
    requires Usable(f, addr, |src|)
    modifies Repr(f)
    ensures ret == 0 || !f.Bpi? ==> StoreOf(f).ready
    ensures Proper(WiringOf(f)) && (Working(f) ==> Wrote(ret, StoreOf(f), old(StoreOf(f)), WiringOf(f), addr, src))
    ensures f.Unreliable? ==> Calls(f) == old(Calls(f)) + 1 && ret == f.port.answers(old(Calls(f))).ret
  {
    match f {
      case Spi(fl) =>
        ret := Write(fl, addr, src);
        ProgrammedNothing(fl.dev.mem, addr);
      case Bpi(bp) =>
        ret := BpiTransfer.Write(bp, addr, src);
        WroteNothing(WiringOf(f), old(bp.dev.mem), addr);
      case Unreliable(port) =>
        ret := port.answers(port.calls).ret;
        port.calls := port.calls + 1;
    }
  }

  lemma WroteNothing(k: Wiring, m: seq<Byte>, addr: nat)
    requires Proper(k)
    ensures Effect(k, m, addr, []) == BpiTransfer.Outcome(true, m)
  {
    ProgrammedNothing(m, addr);
    var none: seq<Byte> := [];
    assert none[..0] == none;
  }

  method FlashRead(f: Flash, addr: nat, len: nat) returns (ret: int, dest: seq<Byte>)
    requires Usable(f, addr, len) && len > 0
    modifies Repr(f)
    ensures StoreOf(f).ready
    ensures |dest| == len
    ensures Working(f) ==> ret == 0 && StoreOf(f) == old(StoreOf(f)) && addr + len <= |StoreOf(f).mem|
    ensures Working(f) ==> dest == StoreOf(f).mem[addr..addr + len]
    ensures f.Unreliable? ==>
              && Calls(f) == old(Calls(f)) + 1 && ret == f.port.answers(old(Calls(f))).ret
              && dest == Resize(f.port.answers(old(Calls(f))).data, len)
    ensures f.Spi? ==> f.fl.dev == old(f.fl.dev)
  {
    match f {
      case Spi(fl) => ret, dest := Read(fl, addr, len);
      case Bpi(bp) => ret, dest := BpiTransfer.Read(bp, addr, len);
      case Unreliable(port) =>
        var a := port.answers(port.calls);
        port.calls := port.calls + 1;
        ret, dest := a.ret, Resize(a.data, len);
    }
  }

  function Resize(d: seq<Byte>, n: nat): (r: seq<Byte>)
    ensures |r| == n
  {
    if |d| >= n then d[..n] else d + seq(n - |d|, _ => 0)
  }

  // ---------------------------------------------------------------- one piece

  /** Every byte of d can be reached from the byte of m below it by clearing bits. */
  ghost predicate Fits(m: seq<Byte>, a: nat, d: seq<Byte>)
    decreases |d|
  {
    if d == [] then a <= |m|
    else
      var n := |d| - 1;
      Fits(m, a, d[..n]) && a + n < |m| && m[a + n] & d[n] == d[n]
  }

  lemma {:induction false} FitsAt(m: seq<Byte>, a: nat, d: seq<Byte>)
    requires a + |d| <= |m|
    ensures Fits(m, a, d) <==> forall i | 0 <= i < |d| :: m[a + i] & d[i] == d[i]
    decreases |d|
  {
    if d != [] {
      var n := |d| - 1;
      FitsAt(m, a, d[..n]);
      assert forall i | 0 <= i < n :: d[..n][i] == d[i];
    }
  }

  lemma {:induction false} FitsAppend(m: seq<Byte>, a: nat, d: seq<Byte>, e: seq<Byte>)
    requires a + |d| + |e| <= |m|
    ensures Fits(m, a, d + e) <==> Fits(m, a, d) && Fits(m, a + |d|, e)
    decreases |e|
  {
    if e == [] {
      assert d + e == d;
    } else {
      var n := |e| - 1;
      FitsAppend(m, a, d, e[..n]);
      assert (d + e)[..|d| + n] == d + e[..n] && (d + e)[|d| + n] == e[n];
    }
  }

  lemma {:induction false} FitsSame(m: seq<Byte>, p: seq<Byte>, a: nat, d: seq<Byte>)
    requires |m| == |p| && a + |d| <= |m| && m[a..a + |d|] == p[a..a + |d|]
    ensures Fits(m, a, d) <==> Fits(p, a, d)
    decreases |d|
  {
    if d != [] {
      var n := |d| - 1;
      assert m[a..a + |d|][..n] == m[a..a + n] && p[a..a + |d|][..n] == p[a..a + n];
      FitsSame(m, p, a, d[..n]);
      assert m[a..a + |d|][n] == m[a + n] && p[a..a + |d|][n] == p[a + n];
    }
  }

  /** Programming d leaves exactly d in memory if and only if d fits. */
  lemma FitsIff(m: seq<Byte>, a: nat, d: seq<Byte>)
    requires a + |d| <= |m|
    ensures Programmed(m, a, d)[a..a + |d|] == d <==> Fits(m, a, d)
  {
    FitsAt(m, a, d);
    var p := Programmed(m, a, d)[a..a + |d|];
    assert forall i | 0 <= i < |d| :: p[i] == m[a + i] & d[i];
    if Fits(m, a, d) {
      assert forall i | 0 <= i < |d| :: p[i] == d[i];
    }
  }

  /** Read a piece back four times; only the last read-back decides, and it is returned. */
  method VerifyPiece(f: Flash, addr: nat, data: seq<Byte>) returns (ret: int, ghost last: seq<Byte>)
    requires Usable(f, addr, |data|) && data != []
    modifies Repr(f)
    ensures StoreOf(f).ready
    ensures ret == 0 ==> last == data
    ensures Working(f) ==> StoreOf(f) == old(StoreOf(f)) && addr + |data| <= |StoreOf(f).mem|
    ensures Working(f) ==> (ret == 0 <==> StoreOf(f).mem[addr..addr + |data|] == data)
    ensures f.Unreliable? ==>
              (ret == 0 <==> && ReturnZero(f.port.answers, old(Calls(f)), 4)
                             && Resize(f.port.answers(old(Calls(f)) + 3).data, |data|) == data)
    ensures f.Unreliable? && ret == 0 ==> Calls(f) == old(Calls(f)) + 4
  {
    ret, last := 0, [];
    var attempts := 3;
    while attempts >= 0
      invariant -1 <= attempts <= 3
      invariant StoreOf(f).ready
      invariant attempts == -1 ==> ret == 0 && last == data
      invariant Working(f) ==> StoreOf(f) == old(StoreOf(f)) && addr + |data| <= |StoreOf(f).mem|
      invariant Working(f) && attempts < 0 ==> StoreOf(f).mem[addr..addr + |data|] == data
      invariant f.Unreliable? ==>
                  Calls(f) == old(Calls(f)) + (3 - attempts)
                      && ReturnZero(f.port.answers, old(Calls(f)), 3 - attempts)
      invariant f.Unreliable? && attempts < 0 ==> Resize(f.port.answers(old(Calls(f)) + 3).data, |data|) == data
    {
      var buf;
      ret, buf := FlashRead(f, addr, |data|);
      last := buf;
      if ret != 0 {
        return;
      }
      if buf != data && attempts == 0 {
        return -1, last;
      }
      attempts := attempts - 1;
    }
  }

  ghost predicate Holds(m: seq<Byte>, a: nat, d: seq<Byte>) { a + |d| <= |m| && m[a..a + |d|] == d }

  /** Writing a piece to a device that accepts it, and reading it back. */
  ghost function Attempt(k: Wiring, m: seq<Byte>, a: nat, piece: seq<Byte>): BpiTransfer.Outcome
    requires Proper(k)
  {
    var e := Effect(k, m, a, piece);
    BpiTransfer.Outcome(e.ok && Holds(e.mem, a, piece), e.mem)
  }

  /** How writing and verifying a piece ends. */
  ghost predicate Attempted(ret: int, g: Store, d: Store, k: Wiring, a: nat, piece: seq<Byte>)
    requires Proper(k)
  {
    var t := Attempt(k, d.mem, a, piece);
    && (ret == 0 <==> !d.refuses && t.ok)
    && g == d.(mem := if d.refuses then d.mem else t.mem, ready := g.ready)
  }

  /** Write a piece and verify it: success means that the memory then holds it. */
  method WritePiece(f: Flash, addr: nat, data: seq<Byte>) returns (ret: int, ghost last: seq<Byte>)
    requires Usable(f, addr, |data|) && data != []
    modifies Repr(f)
    ensures ret == 0 || !f.Bpi? ==> StoreOf(f).ready
    ensures ret == 0 ==> last == data
    ensures Proper(WiringOf(f)) && (Working(f) ==> Attempted(ret, StoreOf(f), old(StoreOf(f)), WiringOf(f), addr, data))
    ensures f.Unreliable? && ret == 0 ==> Calls(f) == old(Calls(f)) + 5
  {
    last := [];
    ghost var d, k := StoreOf(f), WiringOf(f);
    ret := FlashWrite(f, addr, data);
    ghost var wrote, e := ret, StoreOf(f);
    if Working(f) {
      EffectLength(k, d.mem, addr, data);
    }
    if ret == 0 {
      ret, last := VerifyPiece(f, addr, data);
    }
    if Working(f) {
      ReadBack(wrote, ret, StoreOf(f), e, d, k, addr, data);
    }
  }

  lemma EffectLength(k: Wiring, m: seq<Byte>, addr: nat, data: seq<Byte>)
    requires Proper(k)
    ensures |Effect(k, m, addr, data).mem| == |m|
  {
  }

  lemma ReadBack(wrote: int, ret: int, g: Store, e: Store, d: Store, k: Wiring, addr: nat, data: seq<Byte>)
    requires Proper(k) && data != [] && addr + |data| <= |d.mem| && Wrote(wrote, e, d, k, addr, data) && g == e
    requires if wrote == 0 then ret == 0 <==> Holds(e.mem, addr, data) else ret == wrote
    ensures Attempted(ret, g, d, k, addr, data)
  {
  }

  /** A piece of whole words succeeds exactly when it fits, and changes nothing else. */
  lemma WholeAttempt(k: Wiring, m: seq<Byte>, a: nat, piece: seq<Byte>)
    requires Proper(k) && Whole(k, a, |piece|) && a + |piece| <= |m|
    ensures Attempt(k, m, a, piece) == BpiTransfer.Outcome(Fits(m, a, piece), Programmed(m, a, piece))
  {
    WholeEffect(k, m, a, piece);
    FitsIff(m, a, piece);
  }

  // ---------------------------------------------------------------- the whole range

  /** A verified piece: where it was written and what its last read-back returned. */
  datatype Checked = Checked(addr: nat, data: seq<Byte>)

  /** The pieces follow each other from addr on, none is empty or larger than the check buffer, and their last
      read-backs put together are exactly src. */
  ghost predicate Verified(ps: seq<Checked>, addr: nat, src: seq<Byte>, step: nat)
    decreases |ps|
  {
    if ps == [] then src == []
    else
      var p := ps[|ps| - 1];
      && 0 < |p.data| <= step && |p.data| <= |src|
      && p.addr == addr + |src| - |p.data| && p.data == src[|src| - |p.data|..]
      && Verified(ps[..|ps| - 1], addr, src[..|src| - |p.data|], step)
  }

  lemma VerifiedSnoc(ps: seq<Checked>, addr: nat, front: seq<Byte>, piece: seq<Byte>, step: nat)
    requires 0 < |piece| <= step && Verified(ps, addr, front, step)
    ensures Verified(ps + [Checked(addr + |front|, piece)], addr, front + piece, step)
  {
    var qs, src := ps + [Checked(addr + |front|, piece)], front + piece;
    assert qs[..|qs| - 1] == ps;
    assert src[|front|..] == piece && src[..|front|] == front;
  }

  /** A write of src on a working device has ended after front: nothing outside the range changed, and it
      succeeded exactly when it could. */
  ghost predicate WriteEnded(e: Store, d: Store, addr: nat, src: seq<Byte>, ret: int, front: seq<Byte>) {
    && front <= src && e == d.(mem := Programmed(d.mem, addr, front), ready := e.ready)
    && (ret == 0 <==> src == [] || (!d.refuses && Fits(d.mem, addr, src)))
    && (ret == 0 ==> front == src)
  }

  // ---------------------------------------------------------------- any range

  /** A write at this address changes nothing below it. */
  lemma AttemptKeepsBelow(k: Wiring, m: seq<Byte>, a: nat, piece: seq<Byte>)
    requires Proper(k) && (k.Parallel? ==> a % 2 == 0) && a <= |m|
    ensures |Attempt(k, m, a, piece).mem| == |m| && Attempt(k, m, a, piece).mem[..a] == m[..a]
  {
  }

  lemma HoldsBoth(m: seq<Byte>, t: seq<Byte>, addr: nat, front: seq<Byte>, a: nat, piece: seq<Byte>)
    requires a == addr + |front| && Holds(t, addr, front) && Holds(m, a, piece) && |m| == |t| && m[..a] == t[..a]
    ensures Holds(m, addr, front + piece)
  {
    assert m[addr..a] == m[..a][addr..a] && t[addr..a] == t[..a][addr..a];
    assert m[addr..a + |piece|] == m[addr..a] + m[a..a + |piece|];
  }

  /** Only the first piece of a parallel flash may start at an odd address. */
  predicate Placed(k: Wiring, front: seq<Byte>, a: nat, rest: seq<Byte>) {
    k.Parallel? && front != [] && rest != [] ==> a % 2 == 0
  }

  /** If a piece succeeds, the memory holds it together with everything before. */
  lemma HoldsNext(k: Wiring, m: seq<Byte>, t: BpiTransfer.Outcome, addr: nat, front: seq<Byte>, a: nat,
                  piece: seq<Byte>)
    requires Proper(k) && a == addr + |front| && Holds(m, addr, front) && t == Attempt(k, m, a, piece) && t.ok
    requires k.Parallel? && front != [] ==> a % 2 == 0
    ensures Holds(t.mem, addr, front + piece)
  {
    if front == [] {
      assert front + piece == piece;
    } else {
      AttemptKeepsBelow(k, m, a, piece);
      HoldsBoth(t.mem, m, addr, front, a, piece);
    }
  }

  // ---------------------------------------------------------------- whole words

  /** What writing whole words makes of the memory m, and whether they read back. */
  ghost function Result(m: seq<Byte>, addr: nat, front: seq<Byte>): BpiTransfer.Outcome {
    BpiTransfer.Outcome(Fits(m, addr, front), Programmed(m, addr, front))
  }

  ghost predicate Became(e: seq<Byte>, m: seq<Byte>, addr: nat, front: seq<Byte>) {
    Result(m, addr, front) == BpiTransfer.Outcome(true, e)
  }

  lemma FitsNext(m: seq<Byte>, e: seq<Byte>, addr: nat, front: seq<Byte>, a: nat, piece: seq<Byte>)
    requires a == addr + |front| && a + |piece| <= |m| && Became(e, m, addr, front)
    ensures Fits(e, a, piece) <==> Fits(m, addr, front + piece)
  {
    assert m[a..a + |piece|] == e[a..a + |piece|];
    FitsSame(m, e, a, piece);
    FitsAppend(m, addr, front, piece);
  }

  lemma BecameNext(m: seq<Byte>, e: seq<Byte>, addr: nat, front: seq<Byte>, a: nat, piece: seq<Byte>)
    requires a == addr + |front| && a + |piece| <= |m| && Became(e, m, addr, front) && Fits(e, a, piece)
    ensures Became(Programmed(e, a, piece), m, addr, front + piece)
  {
    FitsNext(m, e, addr, front, a, piece);
    ProgrammedNext(m, e, addr, front, a, piece);
  }

  lemma ProgrammedNext(m: seq<Byte>, e: seq<Byte>, addr: nat, front: seq<Byte>, a: nat, piece: seq<Byte>)
    requires a == addr + |front| && e == Programmed(m, addr, front)
    ensures Programmed(e, a, piece) == Programmed(m, addr, front + piece)
  {
    ProgrammedTwice(m, addr, front, piece);
  }

  /** A piece that does not fit is the end: it is programmed all the same, and the whole source does not fit. */
  lemma BecameTheEnd(m: seq<Byte>, e: seq<Byte>, addr: nat, src: seq<Byte>, front: seq<Byte>, a: nat, piece: seq<Byte>,
                     rest: seq<Byte>)
    requires a == addr + |front| && src == front + piece + rest && addr + |src| <= |m|
    requires Became(e, m, addr, front) && !Fits(e, a, piece)
    ensures Programmed(e, a, piece) == Programmed(m, addr, front + piece) && !Fits(m, addr, src)
  {
    FitsNext(m, e, addr, front, a, piece);
    ProgrammedNext(m, e, addr, front, a, piece);
    FitsAppend(m, addr, front + piece, rest);
  }

  // ---------------------------------------------------------------- the loop

  /** The state of the loop on a working device, of which d is the state before. */
  ghost predicate OnTheWay(e: Store, d: Store, k: Wiring, addr: nat, front: seq<Byte>, whole: bool) {
    && e == d.(mem := e.mem, ready := e.ready) && |e.mem| == |d.mem| && (front != [] ==> !d.refuses)
    && Holds(e.mem, addr, front) && (whole ==> Became(e.mem, d.mem, addr, front))
  }

  lemma Starts(d: Store, k: Wiring, addr: nat, whole: bool)
    requires addr <= |d.mem|
    ensures OnTheWay(d, d, k, addr, [], whole)
  {
    ProgrammedNothing(d.mem, addr);
  }

  lemma PieceSucceeds(ret: int, g: Store, e: Store, d: Store, k: Wiring, addr: nat, front: seq<Byte>, a: nat,
                      piece: seq<Byte>, whole: bool)
    requires Proper(k) && a == addr + |front| && a + |piece| <= |d.mem| && OnTheWay(e, d, k, addr, front, whole)
    requires Attempted(ret, g, e, k, a, piece) && ret == 0
    requires (k.Parallel? && front != [] ==> a % 2 == 0) && (whole ==> Whole(k, a, |piece|))
    ensures OnTheWay(g, d, k, addr, front + piece, whole)
  {
    EffectLength(k, e.mem, a, piece);
    HoldsNext(k, e.mem, Attempt(k, e.mem, a, piece), addr, front, a, piece);
    if whole {
      WholeAttempt(k, e.mem, a, piece);
      BecameNext(d.mem, e.mem, addr, front, a, piece);
    }
  }

  lemma PieceFails(ret: int, g: Store, e: Store, d: Store, k: Wiring, addr: nat, src: seq<Byte>, front: seq<Byte>,
                   a: nat,
                   piece: seq<Byte>, rest: seq<Byte>)
    returns (reached: seq<Byte>)
    requires Proper(k) && a == addr + |front| && src == front + piece + rest && piece != [] && addr + |src| <= |d.mem|
    requires OnTheWay(e, d, k, addr, front, true) && Attempted(ret, g, e, k, a, piece) && ret != 0
    requires Whole(k, a, |piece|)
    ensures WriteEnded(g, d, addr, src, ret, reached)
  {
    if d.refuses {
      reached := front;
    } else {
      reached := front + piece;
      WholeAttempt(k, e.mem, a, piece);
      BecameTheEnd(d.mem, e.mem, addr, src, front, a, piece, rest);
    }
  }

  /** The pieces written so far were last read back as the front of the source. */
  ghost predicate Progress(pieces: seq<Checked>, addr: nat, src: seq<Byte>, front: seq<Byte>, a: nat, rest: seq<Byte>,
                           step: nat) {
    src == front + rest && a == addr + |front| && Verified(pieces, addr, front, step)
  }

  lemma ProgressNext(pieces: seq<Checked>, addr: nat, src: seq<Byte>, front: seq<Byte>, a: nat, piece: seq<Byte>,
                     rest: seq<Byte>, step: nat)
    requires 0 < |piece| <= step && Progress(pieces, addr, src, front, a, piece + rest, step)
    ensures Progress(pieces + [Checked(a, piece)], addr, src, front + piece, a + |piece|, rest, step)
  {
    VerifiedSnoc(pieces, addr, front, piece, step);
    assert front + (piece + rest) == front + piece + rest;
  }

  /** The steps that keep pieces of whole words whole. */
  ghost predicate EvenStep(step: nat) { IsPow2(step) && step >= 2 && step % 2 == 0 }

  lemma EvenBoundary(x: nat, step: nat, h: nat)
    requires step == 2 * h && h >= 1 && x % step == 0
    ensures x % 2 == 0
  {
    HalfMod(x, h);
  }

  /** The length of the next piece: unless it is the last one, it ends at an even address. */
  method PieceLengthOf(a: nat, remain: nat, step: nat) returns (n: nat)
    requires EvenStep(step) && remain > 0
    ensures 0 < n <= step && n <= remain && (n < remain ==> (a + n) % 2 == 0)
  {
    PieceFacts(a, remain, step);
    n := Piece(a, remain, step);
    if n < remain {
      EvenBoundary(a + n, step, step / 2);
    }
  }

  lemma WholeParts(k: Wiring, a: nat, n: nat, len: nat)
    requires n <= len && (n < len ==> (a + n) % 2 == 0) && Whole(k, a, len)
    ensures Whole(k, a, n) && Whole(k, a + n, len - n)
  {
  }

  /** Cut off the next piece. */
  method NextPiece(ghost k: Wiring, a: nat, rest: seq<Byte>, step: nat)
    returns (piece: seq<Byte>, b: nat, rest': seq<Byte>)
    requires EvenStep(step) && rest != []
    ensures rest == piece + rest' && 0 < |piece| <= step && b == a + |piece| && (rest' != [] ==> b % 2 == 0)
    ensures Whole(k, a, |rest|) ==> Whole(k, a, |piece|) && Whole(k, b, |rest'|)
  {
    var n := PieceLengthOf(a, |rest|, step);
    piece, b, rest' := rest[..n], a + n, rest[n..];
    if Whole(k, a, |rest|) {
      WholeParts(k, a, n, |rest|);
    }
  }

  /** How one round ends on a working device. */
  ghost predicate RoundEnded(ret: int, g: Store, d: Store, k: Wiring, addr: nat, src: seq<Byte>, front: seq<Byte>,
                             whole: bool) {
    if ret == 0 then OnTheWay(g, d, k, addr, front, whole) else whole ==> WriteEnded(g, d, addr, src, ret, front)
  }

  lemma RoundEnds(ret: int, g: Store, e: Store, d: Store, k: Wiring, addr: nat, src: seq<Byte>, front: seq<Byte>,
                  a: nat,
                  piece: seq<Byte>, rest: seq<Byte>, whole: bool)
    returns (front': seq<Byte>)
    requires Proper(k) && a == addr + |front| && src == front + (piece + rest) && piece != [] && addr + |src| <= |d.mem|
    requires OnTheWay(e, d, k, addr, front, whole) && Attempted(ret, g, e, k, a, piece)
    requires (k.Parallel? && front != [] ==> a % 2 == 0) && (whole ==> Whole(k, a, |piece|))
    ensures RoundEnded(ret, g, d, k, addr, src, front', whole) && (ret == 0 ==> front' == front + piece)
  {
    front' := front + piece;
    assert src == front + piece + rest;
    if ret == 0 {
      PieceSucceeds(ret, g, e, d, k, addr, front, a, piece, whole);
    } else if whole {
      front' := PieceFails(ret, g, e, d, k, addr, src, front, a, piece, rest);
    }
  }

  /** One round of the loop: write and verify the next piece. */
  method TransferPiece(f: Flash, ghost d: Store, ghost k: Wiring, ghost addr: nat, ghost src: seq<Byte>,
                       ghost front: seq<Byte>, a: nat, piece: seq<Byte>, ghost rest: seq<Byte>, ghost whole: bool)
    returns (ret: int, ghost last: seq<Byte>, ghost front': seq<Byte>)
    requires StoreOf(f).ready && k == WiringOf(f) && Proper(k) && a == addr + |front| && piece != []
    requires src == front + (piece + rest) && (whole ==> Whole(k, a, |piece|))
    requires Working(f) ==> addr + |src| <= |d.mem| && OnTheWay(StoreOf(f), d, k, addr, front, whole)
    requires k.Parallel? && front != [] ==> a % 2 == 0
    modifies Repr(f)
    ensures ret == 0 || !f.Bpi? ==> StoreOf(f).ready
    ensures ret == 0 ==> last == piece && front' == front + piece
    ensures Working(f) ==> RoundEnded(ret, StoreOf(f), d, k, addr, src, front', whole)
    ensures f.Unreliable? && ret == 0 ==> Calls(f) == old(Calls(f)) + 5
  {
    ghost var e := StoreOf(f);
    ret, last := WritePiece(f, a, piece);
    ghost var g := StoreOf(f);
    front' := front + piece;
    if Working(f) {
      front' := RoundEnds(ret, g, e, d, k, addr, src, front, a, piece, rest, whole);
    }
  }

  /** What every round of the loop keeps; e is the state of the device. */
  ghost predicate InLoop(e: Store, d: Store, k: Wiring, addr: nat, src: seq<Byte>, front: seq<Byte>, a: nat,
                         rest: seq<Byte>, pieces: seq<Checked>, step: nat, whole: bool, working: bool) {
    && e.ready && Progress(pieces, addr, src, front, a, rest, step) && Placed(k, front, a, rest)
    && (whole ==> Whole(k, a, |rest|))
    && (working ==> addr + |src| <= |d.mem| && OnTheWay(e, d, k, addr, front, whole))
  }

  /** One round of the loop: cut off the next piece, write and verify it. */
  method Round(f: Flash, ghost d: Store, ghost k: Wiring, ghost addr: nat, ghost src: seq<Byte>, ghost front: seq<Byte>,
               a: nat, rest: seq<Byte>, ghost pieces: seq<Checked>, step: nat, ghost whole: bool)
    returns (ret: int, b: nat, rest': seq<Byte>, ghost front': seq<Byte>, ghost pieces': seq<Checked>)
    requires k == WiringOf(f) && Proper(k) && EvenStep(step) && rest != []
    requires InLoop(StoreOf(f), d, k, addr, src, front, a, rest, pieces, step, whole, Working(f))
    modifies Repr(f)
    ensures |rest'| < |rest|
    ensures ret == 0 ==> InLoop(StoreOf(f), d, k, addr, src, front', b, rest', pieces', step, whole, Working(f))
    ensures ret != 0 && !f.Bpi? ==> StoreOf(f).ready
    ensures ret != 0 && Working(f) ==> RoundEnded(ret, StoreOf(f), d, k, addr, src, front', whole)
    ensures f.Unreliable? && ret == 0 ==> Calls(f) == old(Calls(f)) + 5 && |pieces'| == |pieces| + 1
  {
    ghost var last;
    var piece;
    piece, b, rest' := NextPiece(k, a, rest, step);
    ret, last, front' := TransferPiece(f, d, k, addr, src, front, a, piece, rest', whole);
    pieces' := pieces;
    if ret == 0 {
      ProgressNext(pieces, addr, src, front, a, piece, rest', step);
      pieces' := pieces + [Checked(a, last)];
    }
  }

  method Transfer(f: Flash, addr: nat, src: seq<Byte>, step: nat, ghost k: Wiring, ghost whole: bool)
    returns (ret: int, ghost pieces: seq<Checked>, ghost front: seq<Byte>)
    requires Usable(f, addr, |src|) && EvenStep(step) && k == WiringOf(f) && Proper(k)
    requires whole ==> Whole(k, addr, |src|)
    modifies Repr(f)
    ensures ret == 0 || !f.Bpi? ==> StoreOf(f).ready
    ensures ret == 0 ==> Verified(pieces, addr, src, step) && front == src
    ensures Working(f) ==> RoundEnded(ret, StoreOf(f), old(StoreOf(f)), k, addr, src, front, whole)
    ensures f.Unreliable? && ret == 0 ==> Calls(f) == old(Calls(f)) + 5 * |pieces|
  {
    var a: nat, rest := addr, src;
    ghost var d := StoreOf(f);
    pieces, front, ret := [], [], 0;
    if Working(f) {
      Starts(d, k, addr, whole);
    }
    while rest != []
      invariant InLoop(StoreOf(f), d, k, addr, src, front, a, rest, pieces, step, whole, Working(f))
      invariant f.Unreliable? ==> Calls(f) == old(Calls(f)) + 5 * |pieces|
      decreases |rest|
    {
      ret, a, rest, front, pieces := Round(f, d, k, addr, src, front, a, rest, pieces, step, whole);
      if ret != 0 {
        return;
      }
    }
    ret := 0;
    assert front == src;
  }

  /** flash_write_verify_progress.  On any device, success means that the last read-backs were exactly the source.
      Every piece is written once and read back four times.  On a working device success means that the memory holds
      the source; and for whole words it succeeds exactly when the
      device can be written and every byte can be reached by clearing bits, and it changes nothing outside the range. */
  method WriteVerifyProgress(f: Flash, addr: nat, src: seq<Byte>)
    returns (ret: int, ghost pieces: seq<Checked>, ghost front: seq<Byte>)
    requires Usable(f, addr, |src|) && IsPow2(TransferStep(f))
    modifies Repr(f)
    ensures ret == 0 || !f.Bpi? ==> StoreOf(f).ready
    ensures ret == 0 ==> Verified(pieces, addr, src, TransferStep(f))
    ensures f.Unreliable? && ret == 0 ==> Calls(f) == old(Calls(f)) + 5 * |pieces|
    ensures Working(f) && ret == 0 ==> Holds(StoreOf(f).mem, addr, src)
    ensures Working(f) && Whole(WiringOf(f), addr, |src|) ==>
              WriteEnded(StoreOf(f), old(StoreOf(f)), addr, src, ret, front)
  {
    var step := if WriteBufferSize(f) > STEP then WriteBufferSize(f) else STEP;
    ghost var d, k := StoreOf(f), WiringOf(f);
    StepIsEven(step);
    WiringIsProper(f);
    ghost var whole := Whole(k, addr, |src|);
    ret, pieces, front := Transfer(f, addr, src, step, k, whole);
  }

  lemma WiringIsProper(f: Flash)
    requires StoreOf(f).ready
    ensures Proper(WiringOf(f))
  {
  }

  lemma StepIsEven(step: nat)
    requires IsPow2(step) && step >= STEP
    ensures EvenStep(step)
  {
    assert Pow2(1) == 2;
    Pow2Divides(2, step, step);
  }
}
