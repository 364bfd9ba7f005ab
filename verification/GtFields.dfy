/** Fields packed into the 16-bit registers of a transceiver, and the numbers they hold. */
module GtFields {
  import Bits

  type Reg = bv16

  // ---------------------------------------------------------------- numbers

  /** A bit appended to t, and the last bit of b. */
  function Append(t: Reg, c: bool): Reg { (t << 1) | (if c then 1 else 0) }
  predicate LastBit(b: Reg) { b & 1 == 1 }

  /** The low n bits of the two's complement representation of x. */
  function Low(x: int, n: nat): Reg
    decreases n
  {
    if n == 0 then 0 else Append(Low(x / 2, n - 1), x % 2 == 1)
  }

  /** The number that the low n bits of b stand for. */
  function Number(b: Reg, n: nat): nat {
    if n == 0 then 0 else 2 * Number(b >> 1, n - 1) + if LastBit(b) then 1 else 0
  }

  /** All bits of t from bit n on are zero. */
  ghost predicate Narrow(t: Reg, n: nat) { if n == 0 then t == 0 else Narrow(t >> 1, n - 1) }

  /** The low n bits of m are zero. */
  ghost predicate LowZeros(m: Reg, n: nat) { n == 0 || (!LastBit(m) && LowZeros(m >> 1, n - 1)) }

  lemma {:induction false} LowZerosLess(m: Reg, n: nat, k: nat)
    requires LowZeros(m, n) && k <= n
    ensures LowZeros(m, k)
    decreases k
  {
    if k > 0 {
      LowZerosLess(m >> 1, n - 1, k - 1);
    }
  }

  lemma ApartStep(t: Reg, m: Reg)
    requires (t >> 1) & (m >> 1) == 0 && !LastBit(m)
    ensures t & m == 0
  {
  }

  lemma {:induction false} NarrowApart(t: Reg, m: Reg, n: nat)
    requires Narrow(t, n) && LowZeros(m, n)
    ensures t & m == 0
    decreases n
  {
    if n > 0 {
      NarrowApart(t >> 1, m >> 1, n - 1);
      ApartStep(t, m);
    }
  }

  lemma NarrowClear(t: Reg, n: nat)
    requires n <= 15 && Narrow(t, n)
    ensures t & 0x8000 == 0
  {
    assert LowZeros(0x0001, 0) && LowZeros(0x0002, 1) && LowZeros(0x0004, 2) && LowZeros(0x0008, 3);
    assert LowZeros(0x0010, 4) && LowZeros(0x0020, 5) && LowZeros(0x0040, 6) && LowZeros(0x0080, 7);
    assert LowZeros(0x0100, 8) && LowZeros(0x0200, 9) && LowZeros(0x0400, 10) && LowZeros(0x0800, 11);
    assert LowZeros(0x1000, 12) && LowZeros(0x2000, 13) && LowZeros(0x4000, 14) && LowZeros(0x8000, 15);
    LowZerosLess(0x8000, 15, n);
    NarrowApart(t, 0x8000, n);
  }

  lemma AppendFacts(t: Reg, c: bool)
    requires t & 0x8000 == 0
    ensures Append(t, c) >> 1 == t && LastBit(Append(t, c)) == c
  {
  }

  lemma {:induction false} LowNarrow(x: int, n: nat)
    requires n <= 16
    ensures Narrow(Low(x, n), n)
    decreases n
  {
    if n > 0 {
      LowStep(x, n);
      LowNarrow(x / 2, n - 1);
    }
  }

  /** A number of n bits is its last bit appended to half of it. */
  lemma LowStep(x: int, n: nat)
    requires 0 < n <= 16
    ensures Low(x, n) >> 1 == Low(x / 2, n - 1) && LastBit(Low(x, n)) == (x % 2 == 1)
    decreases n, 0
  {
    LowNarrow(x / 2, n - 1);
    var t := Low(x / 2, n - 1);
    NarrowClear(t, n - 1);
    AppendFacts(t, x % 2 == 1);
  }

  lemma NumberStep(b: Reg, k: nat)
    requires k > 0
    ensures Number(b, k) == 2 * Number(b >> 1, k - 1) + if LastBit(b) then 1 else 0
  {
  }

  /** x, or x + p if x is negative: what k bits show of x when p is 2^k. */
  function Wrapped(x: int, p: int): int { if x < 0 then x + p else x }

  lemma WrappedHalf(x: int, p: int)
    requires 0 <= x + 2 * p && x < 2 * p
    ensures 0 <= x / 2 + p && x / 2 < p
    ensures 2 * Wrapped(x / 2, p) + (if x % 2 == 1 then 1 else 0) == Wrapped(x, 2 * p)
  {
  }

  lemma NumberOfAppended(b: Reg, h: Reg, x: int, k: nat, p: int)
    requires k > 0 && 0 <= x + 2 * p && x < 2 * p
    requires b >> 1 == h && LastBit(b) == (x % 2 == 1) && Number(h, k - 1) == Wrapped(x / 2, p)
    ensures Number(b, k) == Wrapped(x, 2 * p)
  {
    NumberStep(b, k);
    WrappedHalf(x, p);
  }

  /** Reading back k of the n bits of a number gives the number, or its k-bit complement if it is negative. */
  lemma {:induction false} NumberOfLow(x: int, n: nat, k: nat)
    requires k <= n <= 16 && 0 <= x + Bits.Pow2(k) && x < Bits.Pow2(k)
    ensures Number(Low(x, n), k) == Wrapped(x, Bits.Pow2(k))
    decreases k
  {
    if k > 0 {
      var p := Bits.Pow2(k - 1);
      WrappedHalf(x, p);
      NumberOfLow(x / 2, n - 1, k - 1);
      LowStep(x, n);
      NumberOfAppended(Low(x, n), Low(x / 2, n - 1), x, k, p);
    }
  }

  /** The low n bits of m are ones. */
  ghost predicate LowOnes(m: Reg, n: nat) { n == 0 || (LastBit(m) && LowOnes(m >> 1, n - 1)) }

  lemma MaskStep(b: Reg, m: Reg)
    ensures (b & m) >> 1 == (b >> 1) & (m >> 1) && (LastBit(m) ==> LastBit(b & m) == LastBit(b))
  {
  }

  lemma {:induction false} NumberOfMasked(b: Reg, m: Reg, n: nat)
    requires LowOnes(m, n)
    ensures Number(b & m, n) == Number(b, n)
    decreases n
  {
    if n > 0 {
      MaskStep(b, m);
      NumberOfMasked(b >> 1, m >> 1, n - 1);
      NumberStep(b, n);
      NumberStep(b & m, n);
    }
  }

  // ---------------------------------------------------------------- fields

  /** A field as the register accessors get it: register address, mask and shift. */
  datatype Field = Field(addr: nat, mask: Reg, shift: nat)

  const ES_CONTROL := Field(0x003C, 0xFC00, 10)
  const ES_ERRDET_EN := Field(0x003C, 0x0200, 9)
  const ES_EYE_SCAN_EN := Field(0x003C, 0x0100, 8)
  const ES_PRESCALE := Field(0x003C, 0x001F, 0)
  const ES_HORZ_OFFSET := Field(0x004F, 0xFFF0, 4)
  const VS_NEG_DIR := Field(0x0097, 0x0400, 10)
  const VS_UT_SIGN := Field(0x0097, 0x0200, 9)
  const VS_CODE := Field(0x0097, 0x01FC, 2)
  const VS_RANGE := Field(0x0097, 0x0003, 0)

  /** val << i and val >> i for the shifts that occur. */
  function Up(val: Reg, i: nat): Reg {
    match i
    case 0 => val
    case 2 => val << 2
    case 4 => val << 4
    case 8 => val << 8
    case 9 => val << 9
    case 10 => val << 10
    case _ => 0
  }

  function Down(val: Reg, i: nat): Reg {
    match i
    case 0 => val
    case 2 => val >> 2
    case 4 => val >> 4
    case 8 => val >> 8
    case 9 => val >> 9
    case 10 => val >> 10
    case _ => 0
  }

  /** gt_ch_reg_read_masked and gt_ch_reg_write_masked on the contents of the register. */
  function Extract(f: Field, r: Reg): Reg { Down(r & f.mask, f.shift) }
  function Insert(f: Field, r: Reg, val: Reg): Reg { (Up(val, f.shift) & f.mask) | (r & !f.mask) }

  lemma InsideMask(r: Reg, a: Reg, m: Reg)
    ensures ((a & m) | (r & !m)) & m == a & m
  {
  }

  lemma OutsideMask(r: Reg, a: Reg, m: Reg, k: Reg)
    requires m & k == 0
    ensures ((a & m) | (r & !m)) & k == r & k
  {
  }

  /** What is read is what was written, cut to the width of the field. */
  lemma InsertExtract(f: Field, r: Reg, val: Reg)
    ensures Extract(f, Insert(f, r, val)) == Down(Up(val, f.shift) & f.mask, f.shift)
  {
    var u, m := Up(val, f.shift), f.mask;
    InsideMask(r, u, m);
  }

  /** Other fields of the register keep their values. */
  lemma InsertKeepsOthers(f: Field, g: Field, r: Reg, val: Reg)
    requires f.mask & g.mask == 0
    ensures Extract(g, Insert(f, r, val)) == Extract(g, r)
  {
    var u, m, k := Up(val, f.shift), f.mask, g.mask;
    OutsideMask(r, u, m, k);
  }

  /** The fields of one register do not overlap. */
  lemma FieldsApart()
    ensures ES_CONTROL.mask & ES_ERRDET_EN.mask == 0 && ES_CONTROL.mask & ES_EYE_SCAN_EN.mask == 0
            && ES_CONTROL.mask & ES_PRESCALE.mask == 0
    ensures ES_ERRDET_EN.mask & ES_EYE_SCAN_EN.mask == 0 && ES_ERRDET_EN.mask & ES_PRESCALE.mask == 0
    ensures ES_EYE_SCAN_EN.mask & ES_PRESCALE.mask == 0
    ensures VS_NEG_DIR.mask & VS_UT_SIGN.mask == 0 && VS_NEG_DIR.mask & VS_CODE.mask == 0
            && VS_NEG_DIR.mask & VS_RANGE.mask == 0
    ensures VS_UT_SIGN.mask & VS_CODE.mask == 0 && VS_UT_SIGN.mask & VS_RANGE.mask == 0
            && VS_CODE.mask & VS_RANGE.mask == 0
  {
  }
}
