/** The eye-scan registers of a channel, field by field, and the point they select. */
module EyeRegisters {
  import Bits
  import opened GtFields

  datatype Point = Point(h: int, v: int, ut: bool)

  // ---------------------------------------------------------------- what the registers hold

  datatype Es = Es(control: Reg, errdet: Reg, enable: Reg, prescale: Reg)
  datatype Vs = Vs(neg: Reg, ut: Reg, code: Reg, range: Reg)
  datatype View = View(es: Es, horz: Reg, vs: Vs)

  /** Register 0x3C: control in bits 10 to 15, error detection in bit 9, the enable in bit 8, the prescaler in bits 0 to
      4. */
  function EsOf(r: Reg): Es { Es((r >> 10) & 0x3f, (r >> 9) & 1, (r >> 8) & 1, r & 0x1f) }

  /** Register 0x97: direction in bit 10, polarity in bit 9, magnitude in bits 2 to 8, range in bits 0 and 1. */
  function VsOf(r: Reg): Vs { Vs((r >> 10) & 1, (r >> 9) & 1, (r >> 2) & 0x7f, r & 3) }

  /** Register 0x4F: the horizontal offset in bits 4 to 15. */
  function HorzOf(r: Reg): Reg { (r >> 4) & 0xfff }

  /** The same through the masks and shifts of the driver. */
  function EsRead(r: Reg): Es {
    Es(Extract(ES_CONTROL, r), Extract(ES_ERRDET_EN, r), Extract(ES_EYE_SCAN_EN, r), Extract(ES_PRESCALE, r))
  }
  function VsRead(r: Reg): Vs {
    Vs(Extract(VS_NEG_DIR, r), Extract(VS_UT_SIGN, r), Extract(VS_CODE, r), Extract(VS_RANGE, r))
  }

  /** The driver's masks and shifts select the bits where the fields are. */
  lemma EsIsRead(r: Reg)
    ensures EsRead(r) == EsOf(r)
  {
  }

  lemma VsIsRead(r: Reg)
    ensures VsRead(r) == VsOf(r)
  {
  }

  lemma HorzIsRead(r: Reg)
    ensures Extract(ES_HORZ_OFFSET, r) == HorzOf(r)
  {
  }

  function At(regs: map<nat, Reg>, a: nat): Reg { if a in regs then regs[a] else 0 }

  function ViewOf(regs: map<nat, Reg>): View {
    View(EsOf(At(regs, 0x003C)), HorzOf(At(regs, 0x004F)), VsOf(At(regs, 0x0097)))
  }

  // ---------------------------------------------------------------- what a write changes

  /** val cut to the width of the field. */
  function Cut(f: Field, val: Reg): Reg { Down(Up(val, f.shift) & f.mask, f.shift) }

  lemma WriteEs(r: Reg, val: Reg)
    ensures EsRead(Insert(ES_CONTROL, r, val)) == EsRead(r).(control := Cut(ES_CONTROL, val))
    ensures EsRead(Insert(ES_ERRDET_EN, r, val)) == EsRead(r).(errdet := Cut(ES_ERRDET_EN, val))
    ensures EsRead(Insert(ES_PRESCALE, r, val)) == EsRead(r).(prescale := Cut(ES_PRESCALE, val))
  {
    FieldsApart();
    InsertExtract(ES_CONTROL, r, val);
    InsertKeepsOthers(ES_CONTROL, ES_ERRDET_EN, r, val);
    InsertKeepsOthers(ES_CONTROL, ES_EYE_SCAN_EN, r, val);
    InsertKeepsOthers(ES_CONTROL, ES_PRESCALE, r, val);
    InsertExtract(ES_ERRDET_EN, r, val);
    InsertKeepsOthers(ES_ERRDET_EN, ES_CONTROL, r, val);
    InsertKeepsOthers(ES_ERRDET_EN, ES_EYE_SCAN_EN, r, val);
    InsertKeepsOthers(ES_ERRDET_EN, ES_PRESCALE, r, val);
    InsertExtract(ES_PRESCALE, r, val);
    InsertKeepsOthers(ES_PRESCALE, ES_CONTROL, r, val);
    InsertKeepsOthers(ES_PRESCALE, ES_ERRDET_EN, r, val);
    InsertKeepsOthers(ES_PRESCALE, ES_EYE_SCAN_EN, r, val);
  }

  lemma WriteVs(r: Reg, val: Reg)
    ensures VsRead(Insert(VS_NEG_DIR, r, val)) == VsRead(r).(neg := Cut(VS_NEG_DIR, val))
    ensures VsRead(Insert(VS_UT_SIGN, r, val)) == VsRead(r).(ut := Cut(VS_UT_SIGN, val))
    ensures VsRead(Insert(VS_CODE, r, val)) == VsRead(r).(code := Cut(VS_CODE, val))
  {
    FieldsApart();
    InsertExtract(VS_NEG_DIR, r, val);
    InsertKeepsOthers(VS_NEG_DIR, VS_UT_SIGN, r, val);
    InsertKeepsOthers(VS_NEG_DIR, VS_CODE, r, val);
    InsertKeepsOthers(VS_NEG_DIR, VS_RANGE, r, val);
    InsertExtract(VS_UT_SIGN, r, val);
    InsertKeepsOthers(VS_UT_SIGN, VS_NEG_DIR, r, val);
    InsertKeepsOthers(VS_UT_SIGN, VS_CODE, r, val);
    InsertKeepsOthers(VS_UT_SIGN, VS_RANGE, r, val);
    InsertExtract(VS_CODE, r, val);
    InsertKeepsOthers(VS_CODE, VS_NEG_DIR, r, val);
    InsertKeepsOthers(VS_CODE, VS_UT_SIGN, r, val);
    InsertKeepsOthers(VS_CODE, VS_RANGE, r, val);
  }

  /** The view after gt_ch_reg_write_masked: exactly the written field has changed. */
  function Written(w: View, f: Field, val: Reg): View {
    if f == ES_CONTROL then w.(es := w.es.(control := Cut(f, val)))
    else if f == ES_ERRDET_EN then w.(es := w.es.(errdet := Cut(f, val)))
    else if f == ES_PRESCALE then w.(es := w.es.(prescale := Cut(f, val)))
    else if f == ES_HORZ_OFFSET then w.(horz := Cut(f, val))
    else if f == VS_NEG_DIR then w.(vs := w.vs.(neg := Cut(f, val)))
    else if f == VS_UT_SIGN then w.(vs := w.vs.(ut := Cut(f, val)))
    else if f == VS_CODE then w.(vs := w.vs.(code := Cut(f, val)))
    else w
  }

  /** The fields the scan writes. */
  ghost predicate Writable(f: Field) {
    || f == ES_CONTROL || f == ES_ERRDET_EN || f == ES_PRESCALE || f == ES_HORZ_OFFSET
    || f == VS_NEG_DIR || f == VS_UT_SIGN || f == VS_CODE
  }

  lemma ViewAfter(regs: map<nat, Reg>, r: Reg)
    ensures ViewOf(regs[0x003C := r]) == ViewOf(regs).(es := EsOf(r))
    ensures ViewOf(regs[0x004F := r]) == ViewOf(regs).(horz := HorzOf(r))
    ensures ViewOf(regs[0x0097 := r]) == ViewOf(regs).(vs := VsOf(r))
  {
  }

  lemma EsAfter(r: Reg, f: Field, val: Reg, w: Reg)
    requires (f == ES_CONTROL || f == ES_ERRDET_EN || f == ES_PRESCALE) && w == Insert(f, r, val)
    ensures EsOf(w) == if f == ES_CONTROL then EsOf(r).(control := Cut(f, val))
                       else if f == ES_ERRDET_EN then EsOf(r).(errdet := Cut(f, val))
                       else EsOf(r).(prescale := Cut(f, val))
  {
    WriteEs(r, val);
    EsIsRead(r);
    EsIsRead(w);
  }

  lemma VsAfter(r: Reg, f: Field, val: Reg, w: Reg)
    requires (f == VS_NEG_DIR || f == VS_UT_SIGN || f == VS_CODE) && w == Insert(f, r, val)
    ensures VsOf(w) == if f == VS_NEG_DIR then VsOf(r).(neg := Cut(f, val))
                       else if f == VS_UT_SIGN then VsOf(r).(ut := Cut(f, val))
                       else VsOf(r).(code := Cut(f, val))
  {
    WriteVs(r, val);
    VsIsRead(r);
    VsIsRead(w);
  }

  lemma HorzAfter(r: Reg, val: Reg, w: Reg)
    requires w == Insert(ES_HORZ_OFFSET, r, val)
    ensures HorzOf(w) == Cut(ES_HORZ_OFFSET, val)
  {
    HorzIsRead(w);
    InsertExtract(ES_HORZ_OFFSET, r, val);
  }

  lemma WriteChangesOneField(regs: map<nat, Reg>, f: Field, val: Reg)
    requires Writable(f)
    ensures ViewOf(regs[f.addr := Insert(f, At(regs, f.addr), val)]) == Written(ViewOf(regs), f, val)
  {
    var r := At(regs, f.addr);
    var w := Insert(f, r, val);
    ViewAfter(regs, w);
    if f.addr == 0x003C {
      EsAfter(r, f, val, w);
    } else if f.addr == 0x0097 {
      VsAfter(r, f, val, w);
    } else {
      HorzAfter(r, val, w);
    }
  }

  // ---------------------------------------------------------------- the point

  /** The values that the driver writes. */
  function HorzBits(b: Reg, neg: bool): Reg { (b & 0x7ff) | (if neg then 0x800 else 0) }
  function HorzCode(h: int): Reg { HorzBits(Low(h, 16), h < 0) }
  function Magnitude(v: int): nat { if v < 0 then -v else v }
  function VertCode(v: int): Reg { Low(Magnitude(v), 16) }
  function Flag(b: bool): Reg { if b then 1 else 0 }

  /** The values that the hardware sees: a 12-bit two's complement number, and a 7-bit magnitude with a direction. */
  predicate HorzNegative(f: Reg) { f & 0x800 != 0 }
  function HorzNumber(f: Reg): int { Number(f, 11) - (if HorzNegative(f) then 2048 else 0) }
  predicate IsSet(f: Reg) { f == 1 }
  function Directed(neg: bool, n: int): int { if neg then -n else n }
  function VertNumber(neg: Reg, code: Reg): int { Directed(IsSet(neg), Number(code, 7)) }

  function PointIn(w: View): Point { Point(HorzNumber(w.horz), VertNumber(w.vs.neg, w.vs.code), IsSet(w.vs.ut)) }

  /** The engine runs, and it counts errors. */
  predicate Running(w: View) { LastBit(w.es.control) }
  predicate Detecting(w: View) { IsSet(w.es.errdet) }

  lemma {:induction false} NumberBound(b: Reg, n: nat)
    ensures Number(b, n) < Bits.Pow2(n)
    decreases n
  {
    if n > 0 {
      NumberBound(b >> 1, n - 1);
    }
  }

  lemma Pow2Values()
    ensures Bits.Pow2(7) == 128 && Bits.Pow2(11) == 2048
  {
    assert Bits.Pow2(3) == 8 && Bits.Pow2(5) == 32 && Bits.Pow2(7) == 128 && Bits.Pow2(9) == 512;
  }

  lemma LowOnesValues()
    ensures LowOnes(0x7f, 7) && LowOnes(0x7ff, 11)
  {
    assert LowOnes(0x1, 1) && LowOnes(0x3, 2) && LowOnes(0x7, 3) && LowOnes(0xf, 4) && LowOnes(0x1f, 5)
           && LowOnes(0x3f, 6);
    assert LowOnes(0x7f, 7) && LowOnes(0xff, 8) && LowOnes(0x1ff, 9) && LowOnes(0x3ff, 10);
  }

  lemma CutHorz(b: Reg, neg: bool)
    ensures Cut(ES_HORZ_OFFSET, HorzBits(b, neg)) & 0x7ff == b & 0x7ff
            && HorzNegative(Cut(ES_HORZ_OFFSET, HorzBits(b, neg))) == neg
  {
  }

  lemma CutCode(b: Reg)
    ensures Cut(VS_CODE, b) == b & 0x7f
  {
  }

  lemma CutFlags(b: bool)
    ensures IsSet(Cut(VS_NEG_DIR, Flag(b))) == b && IsSet(Cut(VS_UT_SIGN, Flag(b))) == b
            && LastBit(Cut(ES_CONTROL, Flag(b))) == b && IsSet(Cut(ES_ERRDET_EN, Flag(b))) == b
  {
  }

  lemma ControlSeen(on: bool, f: Reg)
    requires f == Cut(ES_CONTROL, Flag(on))
    ensures LastBit(f) == on
  {
    CutFlags(on);
  }

  lemma DetectionSeen(f: Reg)
    requires f == Cut(ES_ERRDET_EN, 1)
    ensures IsSet(f)
  {
    CutFlags(true);
  }

  lemma UtSeen(b: bool, f: Reg)
    requires f == Cut(VS_UT_SIGN, Flag(b))
    ensures IsSet(f) == b
  {
    CutFlags(b);
  }

  lemma HorzSeen(h: int, b: Reg, f: Reg)
    requires -2048 <= h < 2048 && Number(b, 11) == Wrapped(h, 2048) && f & 0x7ff == b & 0x7ff
             && HorzNegative(f) == (h < 0)
    ensures HorzNumber(f) == h
  {
    LowOnesValues();
    NumberOfMasked(f, 0x7ff, 11);
    NumberOfMasked(b, 0x7ff, 11);
  }

  /** The hardware sees the horizontal offset exactly when it fits 12 bits. */
  lemma HorzRoundTripIff(h: int)
    ensures HorzNumber(Cut(ES_HORZ_OFFSET, HorzCode(h))) == h <==> -2048 <= h < 2048
  {
    var b := Low(h, 16);
    var f := Cut(ES_HORZ_OFFSET, HorzBits(b, h < 0));
    Pow2Values();
    NumberBound(f, 11);
    if -2048 <= h < 2048 {
      CutHorz(b, h < 0);
      NumberOfLow(h, 16, 11);
      HorzSeen(h, b, f);
    }
  }

  lemma CodeFits(m: nat, b: Reg)
    requires m < 128 && Number(b, 7) == m
    ensures Number(Cut(VS_CODE, b), 7) == m
  {
    CutCode(b);
    LowOnesValues();
    NumberOfMasked(b, 0x7f, 7);
  }

  lemma CodeSeen(m: nat)
    ensures Number(Cut(VS_CODE, Low(m, 16)), 7) < 128 && (m < 128 ==> Number(Cut(VS_CODE, Low(m, 16)), 7) == m)
  {
    var b := Low(m, 16);
    Pow2Values();
    NumberBound(Cut(VS_CODE, b), 7);
    if m < 128 {
      NumberOfLow(m, 16, 7);
      CodeFits(m, b);
    }
  }

  lemma VertSeen(v: int, neg: Reg, code: Reg)
    requires IsSet(neg) == (v < 0) && Number(code, 7) < 128 && (Magnitude(v) < 128 ==> Number(code, 7) == Magnitude(v))
    ensures VertNumber(neg, code) == v <==> -128 < v < 128
  {
  }

  lemma NegSeen(v: int)
    ensures IsSet(Cut(VS_NEG_DIR, Flag(v < 0))) == (v < 0)
  {
    CutFlags(v < 0);
  }

  /** The hardware sees the vertical offset exactly when its magnitude fits 7 bits. */
  lemma VertRoundTripIff(v: int, neg: Reg, code: Reg)
    requires neg == Cut(VS_NEG_DIR, Flag(v < 0)) && code == Cut(VS_CODE, VertCode(v))
    ensures VertNumber(neg, code) == v <==> -128 < v < 128
  {
    NegSeen(v);
    CodeSeen(Magnitude(v));
    VertSeen(v, neg, code);
  }
}
