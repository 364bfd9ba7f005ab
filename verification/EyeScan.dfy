/** The eye scan of a channel: driver state, packed hardware fields and the measurement they control. */
module EyeScan {
  import Bits
  import opened GtFields
  import opened EyeRegisters
  import opened EyeGrid

  datatype Counts = Counts(errors: nat, samples: nat)

  /** The measurement engine.  It measures at the point that is selected when it is started, for `left` more status
      reads, and counts errors if error detection is on; selecting another point or switching error detection before it
      is stopped spoils the measurement.  The counters are held when it is stopped. */
  datatype Scan =
    | Stopped
    | Measuring(at: Point, left: nat, detects: bool, spoiled: bool)
    | Held(at: Point, detects: bool, good: bool)

  function AfterWrite(s: Scan, w: View, latency: Point -> nat): Scan {
    if Running(w) then
      if s.Measuring? then s.(spoiled := s.spoiled || PointIn(w) != s.at || Detecting(w) != s.detects)
      else Measuring(PointIn(w), latency(PointIn(w)), Detecting(w), false)
    else if s.Measuring? then Held(s.at, s.detects, s.left == 0 && !s.spoiled)
    else s
  }

  /** What a scan does not touch once it is set up. */
  function Settings(w: View): (Reg, Reg, Reg, Reg) { (w.es.errdet, w.es.enable, w.es.prescale, w.vs.range) }

  predicate FitsHorz(h: int) { -2048 <= h < 2048 }
  predicate FitsVert(v: int) { -128 < v < 128 }
  predicate Fits(p: Point) { FitsHorz(p.h) && FitsVert(p.v) }

  /** The hardware is at the driver's position, as far as that fits the fields. */
  ghost predicate Seen(at: Point, h: int, v: int, ut: bool) {
    (at.h == h <==> FitsHorz(h)) && (at.v == v <==> FitsVert(v)) && at.ut == ut
  }

  datatype Report = Report(p: Point, errors: nat, bits: nat)

  /** How many bits the hardware examines for so many samples: twice the width for each of them, and twice as many for
      every step of the prescaler. */
  ghost function BitsExamined(samples: nat, width: nat, prescale: nat): nat {
    if prescale == 0 then 2 * (samples * width) else 2 * BitsExamined(samples, width, prescale - 1)
  }

  /** How many bits the driver takes so many samples to stand for. */
  function BitCount(samples: nat, width: nat, prescale: nat): nat { samples * width * Bits.Pow2(1 + prescale) }

  /** The driver's formula is right. */
  lemma {:induction false} BitCountIsExamined(samples: nat, width: nat, prescale: nat)
    ensures BitCount(samples, width, prescale) == BitsExamined(samples, width, prescale)
    decreases prescale
  {
    var n := samples * width;
    if prescale == 0 {
      assert Bits.Pow2(1) == 2;
    } else {
      BitCountIsExamined(samples, width, prescale - 1);
      assert n * (2 * Bits.Pow2(prescale)) == 2 * (n * Bits.Pow2(prescale));
    }
  }

  class Channel {
    // hardware
    var regs: map<nat, Reg>
    var scan: Scan
    const latency: Point -> nat
    const counts: Point -> Counts

    // driver
    var grid: Grid
    var prescale: nat
    var width: nat
    var h: int
    var v: int
    var ut: bool
    var running: bool

    constructor (latency: Point -> nat, counts: Point -> Counts, regs: map<nat, Reg>, width: nat)
      ensures this.latency == latency && this.counts == counts && this.regs == regs && scan == Stopped && !running
    {
      this.latency, this.counts, this.regs, this.width := latency, counts, regs, width;
      grid := Grid(0, 0, 1, 0, 0, 1, false);
      scan, running, prescale, h, v, ut := Stopped, false, 0, 0, 0, false;
    }

    ghost function Now(): View
      reads this`regs
    {
      ViewOf(regs)
    }

    /** gt_ch_reg_write_masked: a read, then a write of the whole register. */
    method WriteMasked(f: Field, val: Reg)
      requires Writable(f)
      modifies this`regs, this`scan
      ensures Now() == Written(old(Now()), f, val) && scan == AfterWrite(old(scan), Now(), latency)
    {
      WriteChangesOneField(regs, f, val);
      var oldVal := At(regs, f.addr);
      regs := regs[f.addr := Insert(f, oldVal, val)];
      scan := AfterWrite(scan, ViewOf(regs), latency);
    }

    method SetControl(on: bool)
      modifies this`regs, this`scan
      ensures Running(Now()) == on && PointIn(Now()) == old(PointIn(Now())) && Settings(Now()) == old(Settings(Now()))
      ensures scan == AfterWrite(old(scan), Now(), latency)
    {
      WriteMasked(ES_CONTROL, Flag(on));
      ControlSeen(on, Now().es.control);
    }

    method SetUtSign(b: bool)
      requires !Running(Now()) && !scan.Measuring?
      modifies this`regs, this`scan
      ensures PointIn(Now()) == old(PointIn(Now())).(ut := b) && Settings(Now()) == old(Settings(Now()))
      ensures !Running(Now()) && scan == old(scan)
    {
      WriteMasked(VS_UT_SIGN, Flag(b));
      UtSeen(b, Now().vs.ut);
    }

    /** Direction and magnitude of the vertical offset. */
    method SetVert(x: int)
      requires !Running(Now()) && !scan.Measuring?
      modifies this`regs, this`scan
      ensures PointIn(Now()) == old(PointIn(Now())).(v := PointIn(Now()).v) && Settings(Now()) == old(Settings(Now()))
      ensures PointIn(Now()).v == x <==> FitsVert(x)
      ensures !Running(Now()) && scan == old(scan)
    {
      WriteMasked(VS_NEG_DIR, Flag(x < 0));
      WriteMasked(VS_CODE, VertCode(x));
      VertRoundTripIff(x, Now().vs.neg, Now().vs.code);
    }

    method SetHorz(x: int)
      requires !Running(Now()) && !scan.Measuring?
      modifies this`regs, this`scan
      ensures PointIn(Now()) == old(PointIn(Now())).(h := PointIn(Now()).h) && Settings(Now()) == old(Settings(Now()))
      ensures PointIn(Now()).h == x <==> FitsHorz(x)
      ensures !Running(Now()) && scan == old(scan)
    {
      WriteMasked(ES_HORZ_OFFSET, HorzCode(x));
      HorzRoundTripIff(x);
    }

    // ---------------------------------------------------------------- driver state and hardware state

    /** While a scan runs, the engine measures, undisturbed, at the point that is going to be reported; otherwise it
        is off. */
    ghost predicate Coherent()
      reads this
    {
      && Steps(grid) && Running(Now()) == running
      && if running then
           && scan.Measuring? && !scan.spoiled && scan.at == PointIn(Now()) && Seen(scan.at, h, v, ut)
           && scan.detects && Detecting(Now())
         else !scan.Measuring?
    }

    /** The points still to be reported. */
    ghost function Remaining(): seq<Point>
      requires Steps(grid)
      reads this
    {
      if running then Rest(grid, h, v, ut) else []
    }

    method ReadStatus() returns (done: bool)
      modifies this`scan
      ensures done <==> old(scan).Measuring? && old(scan).left == 0
      ensures scan == if old(scan).Measuring? && old(scan).left > 0
                      then old(scan).(left := old(scan).left - 1) else old(scan)
    {
      done := scan.Measuring? && scan.left == 0;
      if scan.Measuring? && scan.left > 0 {
        scan := scan.(left := scan.left - 1);
      }
    }

    /** The counters, which mean something only after an undisturbed measurement. */
    method ReadCounts() returns (c: Counts)
      ensures scan.Held? && scan.good && scan.detects ==> c == counts(scan.at)
      ensures scan.Held? && scan.good && !scan.detects ==> c == counts(scan.at).(errors := 0)
    {
      c := if scan.Held? && scan.good then counts(scan.at) else Counts(0, 0);
      if !(scan.Held? && scan.detects) {
        c := c.(errors := 0);
      }
    }

    ghost predicate Ready()
      reads this
    {
      && Steps(grid) && running && !Running(Now()) && !scan.Measuring? && Seen(PointIn(Now()), h, v, ut)
      && Detecting(Now())
    }

    /** The three parts of gthe3_ch_eyescan_step that move on to the next point: each changes its own coordinate and
        either restarts the measurement or leaves it to the next part. */
    method Restart()
      requires Ready()
      modifies this`regs, this`scan
      ensures Coherent() && Settings(Now()) == old(Settings(Now()))
    {
      SetControl(true);
    }

    method AdvanceSign() returns (restart: bool)
      requires Ready()
      modifies this`regs, this`scan, this`ut
      ensures Settings(Now()) == old(Settings(Now())) && restart == ut == (!old(ut) && grid.dfe)
      ensures if restart then Coherent() else Ready()
    {
      if !ut && grid.dfe {
        ut, restart := true, true;
      } else {
        ut, restart := false, false;
      }
      SetUtSign(ut);
      if restart {
        Restart();
      }
    }

    method AdvanceVert() returns (restart: bool)
      requires Ready()
      modifies this`regs, this`scan, this`v
      ensures Settings(Now()) == old(Settings(Now())) && restart == (old(v) < grid.vStop)
      ensures v == if restart then old(v) + grid.vStep else grid.vStart
      ensures if restart then Coherent() else Ready()
    {
      if v < grid.vStop {
        v, restart := v + grid.vStep, true;
      } else {
        v, restart := grid.vStart, false;
      }
      SetVert(v);
      if restart {
        Restart();
      }
    }

    method AdvanceHorz()
      requires Ready()
      modifies this`regs, this`scan, this`h, this`running
      ensures Settings(Now()) == old(Settings(Now())) && running == (old(h) < grid.hStop) && Coherent()
      ensures running ==> h == old(h) + grid.hStep
    {
      if h < grid.hStop {
        h := h + grid.hStep;
      } else {
        running := false;
        return;
      }
      SetHorz(h);
      Restart();
    }

    method AdvanceOffsets()
      requires Ready()
      modifies this`regs, this`scan, this`h, this`v, this`running
      ensures Settings(Now()) == old(Settings(Now())) && Coherent()
      ensures if old(v) < grid.vStop then running && h == old(h) && v == old(v) + grid.vStep
              else if old(h) < grid.hStop then running && h == old(h) + grid.hStep && v == grid.vStart
              else !running
    {
      var restart := AdvanceVert();
      if !restart {
        AdvanceHorz();
      }
    }

    method Advance()
      requires Ready()
      modifies this`regs, this`scan, this`h, this`v, this`ut, this`running
      ensures Settings(Now()) == old(Settings(Now())) && Coherent()
      ensures Successor(grid, old(h), old(v), old(ut), running, h, v, ut)
    {
      var restart := AdvanceSign();
      if !restart {
        AdvanceOffsets();
      }
    }

    /** The counters of the measurement that has just finished. */
    method Collect() returns (c: Counts)
      requires Coherent() && running && scan.left == 0
      modifies this`regs, this`scan
      ensures Ready() && Settings(Now()) == old(Settings(Now())) && c == counts(old(scan).at)
    {
      SetControl(false);
      c := ReadCounts();
    }

    /** The prescaler that the hardware applies, and the bits that it has examined at a point. */
    ghost function Applied(): nat
      reads this`regs
    {
      Number(Now().es.prescale, 5)
    }

    ghost function Examined(at: Point): nat
      reads this`regs, this`width
    {
      BitsExamined(counts(at).samples, width, Applied())
    }

    /** What a finished measurement reports, before the next one is started. */
    ghost predicate Reports(r: Report, at: Point)
      reads this
    {
      && r.errors == counts(at).errors && r.bits == BitsExamined(counts(at).samples, width, prescale)
      && (r.bits == Examined(at) <==> Applied() == prescale || counts(at).samples * width == 0)
      && (at == r.p <==> Fits(r.p))
    }

    method TakePoint() returns (r: Report, ghost at: Point)
      requires Coherent() && running && scan.left == 0
      modifies this`regs, this`scan, this`h, this`v, this`ut, this`running
      ensures Coherent() && Settings(Now()) == old(Settings(Now())) && r.p == Point(old(h), old(v), old(ut))
      ensures Successor(grid, old(h), old(v), old(ut), running, h, v, ut)
      ensures Reports(r, at)
    {
      at := scan.at;
      var c := Collect();
      r := Report(Point(h, v, ut), c.errors, BitCount(c.samples, width, prescale));
      BitCountIsExamined(c.samples, width, prescale);
      BitCountIff(c.samples, width, prescale, Applied());
      Advance();
    }

    /** gthe3_ch_eyescan_step: nothing when no scan runs, 2 while the measurement goes on, and otherwise the next
        point of the walk.  What is reported was counted at `at`, which is the reported point exactly when that fits
        the fields. */
    method Step() returns (ret: int, r: Report, ghost at: Point)
      requires Coherent()
      modifies this`regs, this`scan, this`h, this`v, this`ut, this`running
      ensures Coherent() && Settings(Now()) == old(Settings(Now()))
      ensures !old(running) ==> ret == 0 && !running
      ensures old(running) && old(scan).left > 0 ==>
                ret == 2 && Remaining() == old(Remaining()) && running && scan.left < old(scan).left
      ensures old(running) && old(scan).left == 0 ==>
                ret == 1 && [r.p] + Remaining() == old(Remaining()) && Reports(r, at)
    {
      at, r := Point(h, v, ut), Report(Point(h, v, ut), 0, 0);
      if !running {
        return 0, r, at;
      }
      var done := ReadStatus();
      if !done {
        return 2, r, at;
      }
      ghost var h0, v0, ut0 := h, v, ut;
      r, at := TakePoint();
      SuccessorRest(grid, h0, v0, ut0, running, h, v, ut);
      ret := 1;
    }

    // ---------------------------------------------------------------- a whole scan

    method Configure(val: Reg)
      modifies this`regs, this`scan
      ensures !Running(Now()) && !scan.Measuring?
      ensures Settings(Now()) == Configured(old(Settings(Now())), val) && Detecting(Now())
    {
      SetControl(false);
      WriteMasked(ES_PRESCALE, val);
      WriteMasked(ES_ERRDET_EN, 1);
      DetectionSeen(Now().es.errdet);
    }

    method Position()
      requires !Running(Now()) && !scan.Measuring?
      modifies this`regs, this`scan
      ensures Seen(PointIn(Now()), h, v, ut) && !Running(Now()) && scan == old(scan)
              && Settings(Now()) == old(Settings(Now()))
    {
      SetHorz(h);
      SetVert(v);
      SetUtSign(ut);
    }

    method Launch()
      requires Steps(grid) && running && !Running(Now()) && !scan.Measuring? && Detecting(Now())
      modifies this`regs, this`scan
      ensures Coherent() && Settings(Now()) == old(Settings(Now()))
    {
      Position();
      Restart();
    }

    method Setup(val: Reg)
      requires Steps(grid) && running
      modifies this`regs, this`scan
      ensures Coherent() && Settings(Now()) == Configured(old(Settings(Now())), val)
    {
      Configure(val);
      Launch();
    }

    method Home(g: Grid, p: nat)
      modifies this`grid, this`prescale, this`h, this`v, this`ut, this`running
      ensures grid == g && prescale == p && h == g.hStart && v == g.vStart && !ut && running
    {
      grid, prescale := g, p;
      h, v, ut := g.hStart, g.vStart, false;
      running := true;
    }

    /** The part of gthe3_ch_eyescan_start that sets up the measurement, whatever the engine was doing before. */
    method Begin(g: Grid, p: nat)
      requires Steps(g)
      modifies this
      ensures Coherent() && running && grid == g && prescale == p && width == old(width)
      ensures Remaining() == All(g) && Settings(Now()) == Configured(old(Settings(Now())), Low(p, 16))
    {
      Home(g, p);
      Setup(Low(p, 16));
    }

    /** The counts belong to the point they are reported for, if that fits the fields. */
    ghost predicate Honest(r: Report)
      reads this`width, this`prescale
    {
      Fits(r.p) ==> r.errors == counts(r.p).errors && r.bits == BitsExamined(counts(r.p).samples, width, prescale)
    }

    ghost predicate AllHonest(rs: seq<Report>)
      reads this`width, this`prescale
    {
      forall i | 0 <= i < |rs| :: Honest(rs[i])
    }

    /** The bits reported for a point that fits are the bits examined there exactly if `exact`, or if both are zero. */
    ghost predicate ExactIf(r: Report, exact: bool)
      reads this`regs, this`width
    {
      Fits(r.p) ==> (r.bits == Examined(r.p) <==> exact || counts(r.p).samples * width == 0)
    }

    ghost predicate AllExactIf(rs: seq<Report>, exact: bool)
      reads this`regs, this`width
    {
      forall i | 0 <= i < |rs| :: ExactIf(rs[i], exact)
    }

    lemma HonestExact(rs: seq<Report>)
      requires AllHonest(rs)
      ensures AllExactIf(rs, Applied() == prescale)
    {
      forall i | 0 <= i < |rs|
        ensures ExactIf(rs[i], Applied() == prescale)
      {
        BitCountIsExamined(counts(rs[i].p).samples, width, prescale);
        BitCountIff(counts(rs[i].p).samples, width, prescale, Applied());
      }
    }

    /** One round of the caller's loop. */
    method Poll(reports: seq<Report>, ghost all: seq<Point>) returns (more: seq<Report>, done: bool)
      requires Coherent() && Points(reports) + Remaining() == all && AllHonest(reports)
      modifies this`regs, this`scan, this`h, this`v, this`ut, this`running
      ensures Coherent() && Settings(Now()) == old(Settings(Now())) && (done ==> !running)
      ensures Points(more) + Remaining() == all && AllHonest(more)
      ensures !done ==>
                || |Remaining()| < |old(Remaining())|
                || (|Remaining()| == |old(Remaining())| && Left() < old(Left()))
    {
      ghost var rest := Remaining();
      var ret, r;
      ghost var at;
      ret, r, at := Step();
      more, done := reports, ret == 0;
      if ret == 1 {
        PointsAppend(reports, r, rest, Remaining());
        more := reports + [r];
      }
    }

    ghost function Left(): nat
      reads this`scan
    {
      if scan.Measuring? then scan.left else 0
    }

    /** The loop of the caller: it takes steps until one reports that the scan is over.  Exactly the remaining
        points are reported, in order, each with what was counted there; the bit counts are right if the hardware
        has the driver's prescaler. */
    method Run() returns (reports: seq<Report>)
      requires Coherent()
      modifies this`regs, this`scan, this`h, this`v, this`ut, this`running
      ensures Coherent() && !running && Settings(Now()) == old(Settings(Now()))
      ensures Points(reports) == old(Remaining()) && AllHonest(reports) && AllExactIf(reports, Applied() == prescale)
    {
      reports := [];
      var done := false;
      ghost var all := Remaining();
      while !done
        invariant Coherent() && Settings(Now()) == old(Settings(Now())) && (done ==> !running)
        invariant Points(reports) + Remaining() == all && AllHonest(reports)
        decreases |Remaining()|, Left(), !done
      {
        reports, done := Poll(reports, all);
      }
      HonestExact(reports);
    }

    /** A scan from start to end: every point of the grid once, in lexicographic order.  The bit counts are right
        exactly when the largest prescaler reaches the target. */
    method FullScan(g: Grid, target: nat) returns (reports: seq<Report>)
      requires Steps(g)
      modifies this
      ensures Points(reports) == All(g) && Sorted(Points(reports)) && AllHonest(reports) && !running
              && width == old(width)
      ensures |reports| ==
              Count(g.hStart, g.hStop, g.hStep) * (Count(g.vStart, g.vStop, g.vStep) * PolarityCount(g.dfe))
      ensures AllExactIf(reports, target <= BitsExamined(0xffff, width, 31))
    {
      var p := ChoosePrescale(width, target);
      Begin(g, p);
      PrescaleSeenIff(p);
      reports := Run();
      AllLength(g);
      AllSorted(g);
    }
  }

  /** The smallest prescaler that reaches the target with full counters, or 32 if none of the 32 does. */
  method ChoosePrescale(width: nat, target: nat) returns (p: nat)
    ensures p <= 32 && (p < 32 <==> target <= BitsExamined(0xffff, width, 31))
    ensures p < 32 ==> BitsExamined(0xffff, width, p) >= target
    ensures forall q | 0 <= q < p :: BitsExamined(0xffff, width, q) < target
  {
    p := 0;
    BitCountIsExamined(0xffff, width, p);
    while p < 32 && BitCount(0xffff, width, p) < target
      invariant p <= 32 && BitCount(0xffff, width, p) == BitsExamined(0xffff, width, p)
      invariant forall q | 0 <= q < p :: BitsExamined(0xffff, width, q) < target
    {
      p := p + 1;
      BitCountIsExamined(0xffff, width, p);
    }
    if p < 32 {
      ExaminedGrows(0xffff, width, p, 31);
    }
  }

  lemma ProductGrows(n: nat, a: nat, b: nat)
    requires a < b
    ensures n * a <= n * b && (n * a == n * b <==> n == 0)
  {
    assert n * b == n * a + n * (b - a);
    if n > 0 {
      Bits.MulAtLeast(b - a, n);
    }
  }

  lemma ExaminedGrows(samples: nat, width: nat, p: nat, q: nat)
    requires p <= q
    ensures BitsExamined(samples, width, p) <= BitsExamined(samples, width, q)
    ensures BitsExamined(samples, width, p) == BitsExamined(samples, width, q) <==> p == q || samples * width == 0
  {
    BitCountIsExamined(samples, width, p);
    BitCountIsExamined(samples, width, q);
    if p < q {
      Bits.Pow2Grows(1 + p, 1 + q);
      ProductGrows(samples * width, Bits.Pow2(1 + p), Bits.Pow2(1 + q));
    }
  }

  /** Two prescalers stand for the same number of bits exactly when they are the same, or nothing was counted. */
  lemma BitCountIff(samples: nat, width: nat, p: nat, q: nat)
    ensures BitCount(samples, width, p) == BitsExamined(samples, width, q) <==> q == p || samples * width == 0
  {
    BitCountIsExamined(samples, width, p);
    if p <= q {
      ExaminedGrows(samples, width, p, q);
    } else {
      ExaminedGrows(samples, width, q, p);
    }
  }

  /** No channel is wider than 160 bits, so 64 bits hold targets that no prescaler reaches. */
  lemma TargetOutOfReach(width: nat, target: nat)
    requires width <= 160 && target >= 0x0100_0000_0000_0000
    ensures BitsExamined(0xffff, width, 31) < target
  {
    BitCountIsExamined(0xffff, width, 31);
    assert Bits.Pow2(8) == 0x100 && Bits.Pow2(16) == 0x1_0000 && Bits.Pow2(24) == 0x100_0000
           && Bits.Pow2(32) == 0x1_0000_0000;
  }

  lemma CutPrescale(b: Reg)
    ensures Cut(ES_PRESCALE, b) == b & 0x1f
  {
  }

  /** The hardware uses the prescaler that the reported bit counts assume exactly when it is less than 32. */
  lemma PrescaleSeenIff(p: nat)
    ensures Number(Cut(ES_PRESCALE, Low(p, 16)), 5) == p <==> p < 32
  {
    var b := Low(p, 16);
    assert Bits.Pow2(3) == 8 && Bits.Pow2(5) == 32;
    assert LowOnes(0x1, 1) && LowOnes(0x3, 2) && LowOnes(0x7, 3) && LowOnes(0xf, 4) && LowOnes(0x1f, 5);
    CutPrescale(b);
    NumberBound(b & 0x1f, 5);
    if p < 32 {
      NumberOfLow(p, 16, 5);
      NumberOfMasked(b, 0x1f, 5);
    }
  }

  /** All points of a scan fit the fields exactly when the first and the last value of each axis do. */
  lemma GridFitsIff(g: Grid)
    requires Steps(g)
    ensures (forall p | p in All(g) :: Fits(p)) <==>
            && FitsHorz(g.hStart) && FitsHorz(Last(g.hStart, g.hStop, g.hStep))
            && FitsVert(g.vStart) && FitsVert(Last(g.vStart, g.vStop, g.vStep))
  {
    var first := Point(g.hStart, g.vStart, false);
    var last := Point(Last(g.hStart, g.hStop, g.hStep), Last(g.vStart, g.vStop, g.vStep), false);
    AxisEnds(g.hStart, g.hStop, g.hStep);
    AxisEnds(g.vStart, g.vStop, g.vStep);
    InAll(g, first);
    InAll(g, last);
    if FitsHorz(first.h) && FitsHorz(last.h) && FitsVert(first.v) && FitsVert(last.v) {
      forall p | p in All(g)
        ensures Fits(p)
      {
        InAll(g, p);
        AxisBounds(p.h, g.hStart, g.hStop, g.hStep);
        AxisBounds(p.v, g.vStart, g.vStop, g.vStep);
      }
    }
  }

  /** Start and stop can both fit while the last value does not. */
  lemma OvershootDoesNotFit()
    ensures FitsVert(-127) && FitsVert(127) && !FitsVert(Last(-127, 127, 100))
  {
  }

  /** The settings after a scan has been set up: error detection is on, and the prescaler is as chosen. */
  function Configured(s: (Reg, Reg, Reg, Reg), val: Reg): (Reg, Reg, Reg, Reg) {
    (Cut(ES_ERRDET_EN, 1), s.1, Cut(ES_PRESCALE, val), s.3)
  }

  function Points(rs: seq<Report>): (ps: seq<Point>)
    ensures |ps| == |rs|
  {
    seq(|rs|, i requires 0 <= i < |rs| => rs[i].p)
  }

  lemma PointsAppend(rs: seq<Report>, r: Report, before: seq<Point>, after: seq<Point>)
    requires before == [r.p] + after
    ensures Points(rs + [r]) + after == Points(rs) + before
  {
    assert Points(rs + [r]) == Points(rs) + [r.p];
  }
}
