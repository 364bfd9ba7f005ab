/** Bytes: shifts by a variable amount, and the numbers bytes stand for. */
module Bytes {
  import Bits

  type Byte = bv8

  /** b >> i and b << i, for a shift amount that varies. */
  function Shr(b: Byte, i: nat): Byte {
    match i
    case 0 => b case 1 => b >> 1 case 2 => b >> 2 case 3 => b >> 3 case 4 => b >> 4
    case 5 => b >> 5 case 6 => b >> 6 case 7 => b >> 7 case _ => 0
  }

  function Shl(b: Byte, i: nat): Byte {
    match i
    case 0 => b case 1 => b << 1 case 2 => b << 2 case 3 => b << 3 case 4 => b << 4
    case 5 => b << 5 case 6 => b << 6 case 7 => b << 7 case _ => 0
  }

  /** A bit appended to t, and the last bit of b. */
  function Append(t: Byte, c: bool): Byte { (t << 1) | (if c then 1 else 0) }
  predicate LastBit(b: Byte) { b & 1 == 1 }

  /** The number that the low n bits of b stand for, and the low n bits of a number. */
  function FromBits(b: Byte, n: nat): nat {
    if n == 0 then 0 else 2 * FromBits(b >> 1, n - 1) + if LastBit(b) then 1 else 0
  }

  function ToBits(x: nat, n: nat): Byte
    decreases n
  {
    if n == 0 then 0 else Append(ToBits(x / 2, n - 1), x % 2 == 1)
  }

  /** All bits of t from bit n on are zero. */
  ghost predicate Narrow(t: Byte, n: nat) { if n == 0 then t == 0 else Narrow(t >> 1, n - 1) }

  /** The low n bits of m are zero. */
  ghost predicate LowZeros(m: Byte, n: nat) { n == 0 || (!LastBit(m) && LowZeros(m >> 1, n - 1)) }

  lemma {:induction false} LowZerosLess(m: Byte, n: nat, k: nat)
    requires LowZeros(m, n) && k <= n
    ensures LowZeros(m, k)
    decreases k
  {
    if k > 0 {
      LowZerosLess(m >> 1, n - 1, k - 1);
    }
  }

  lemma ApartStep(t: Byte, m: Byte)
    requires (t >> 1) & (m >> 1) == 0 && !LastBit(m)
    ensures t & m == 0
  {
  }

  lemma {:induction false} NarrowApart(t: Byte, m: Byte, n: nat)
    requires Narrow(t, n) && LowZeros(m, n)
    ensures t & m == 0
    decreases n
  {
    if n > 0 {
      NarrowApart(t >> 1, m >> 1, n - 1);
      ApartStep(t, m);
    }
  }

  lemma NarrowClear(t: Byte, n: nat)
    requires n <= 7 && Narrow(t, n)
    ensures t & 0x80 == 0
  {
    assert LowZeros(0x01, 0) && LowZeros(0x02, 1) && LowZeros(0x04, 2) && LowZeros(0x08, 3);
    assert LowZeros(0x10, 4) && LowZeros(0x20, 5) && LowZeros(0x40, 6) && LowZeros(0x80, 7);
    LowZerosLess(0x80, 7, n);
    NarrowApart(t, 0x80, n);
  }

  lemma AppendFacts(t: Byte, c: bool)
    requires t & 0x80 == 0
    ensures Append(t, c) >> 1 == t && LastBit(Append(t, c)) == c
  {
  }

  lemma {:induction false} ToBitsNarrow(x: nat, n: nat)
    requires n <= 8
    ensures Narrow(ToBits(x, n), n)
    decreases n
  {
    if n > 0 {
      ToBitsStep(x, n);
      ToBitsNarrow(x / 2, n - 1);
    }
  }

  /** A number of n bits is its last bit appended to half of it. */
  lemma ToBitsStep(x: nat, n: nat)
    requires 0 < n <= 8
    ensures ToBits(x, n) >> 1 == ToBits(x / 2, n - 1) && LastBit(ToBits(x, n)) == (x % 2 == 1)
    decreases n, 0
  {
    ToBitsNarrow(x / 2, n - 1);
    var t := ToBits(x / 2, n - 1);
    NarrowClear(t, n - 1);
    AppendFacts(t, x % 2 == 1);
  }

  lemma FromBitsStep(b: Byte, h: Byte, x: nat, n: nat)
    requires n > 0 && b >> 1 == h && LastBit(b) == (x % 2 == 1) && FromBits(h, n - 1) == x / 2
    ensures FromBits(b, n) == x
  {
  }

  lemma {:induction false} FromToBits(x: nat, n: nat)
    requires n <= 8 && x < Bits.Pow2(n)
    ensures FromBits(ToBits(x, n), n) == x
    decreases n
  {
    if n > 0 {
      FromToBits(x / 2, n - 1);
      ToBitsStep(x, n);
      FromBitsStep(ToBits(x, n), ToBits(x / 2, n - 1), x, n);
    }
  }

  /** The number a byte stands for, and the byte of a number below 256. */
  function FromByte(b: Byte): nat { FromBits(b, 8) }
  function ToByte(x: nat): Byte { ToBits(x, 8) }

  lemma FromTo(x: nat)
    requires x < 256
    ensures FromByte(ToByte(x)) == x
  {
    assert Bits.Pow2(2) == 4;
    assert Bits.Pow2(4) == 16;
    assert Bits.Pow2(6) == 64;
    FromToBits(x, 8);
  }

  /** The number whose big-endian bytes these are. */
  function Value(bs: seq<Byte>): nat {
    if bs == [] then 0 else Value(bs[..|bs| - 1]) * 256 + FromByte(bs[|bs| - 1])
  }
}
