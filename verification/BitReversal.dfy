/** The bit order of firmware images: each byte reversed, or each 16-bit word. */
module BitReversal {
  import opened Bytes
  import opened NorMemory

  // ---------------------------------------------------------------- bytes

  /** Exchange neighbouring bits, pairs of bits and nibbles. */
  function Bits8(b: Byte): Byte { ((b & 0x55) << 1) | ((b & 0xAA) >> 1) }
  function Pairs8(b: Byte): Byte { ((b & 0x33) << 2) | ((b & 0xCC) >> 2) }
  function Nibbles8(b: Byte): Byte { ((b & 0x0F) << 4) | ((b & 0xF0) >> 4) }

  function Reverse8(b: Byte): Byte { Nibbles8(Pairs8(Bits8(b))) }

  /** Bit i of a byte, counted from the least significant one. */
  predicate Bit(b: Byte, i: nat) { Shr(b, i) & 1 == 1 }

  /** r has the bits of b in the opposite order. */
  ghost predicate Mirrors(r: Byte, b: Byte) { forall i | 0 <= i < 8 :: Bit(r, i) == Bit(b, 7 - i) }

  lemma LowBits(b: Byte)
    ensures Bit(Reverse8(b), 0) == Bit(b, 7) && Bit(Reverse8(b), 1) == Bit(b, 6)
    ensures Bit(Reverse8(b), 2) == Bit(b, 5) && Bit(Reverse8(b), 3) == Bit(b, 4)
  {
  }

  lemma HighBits(b: Byte)
    ensures Bit(Reverse8(b), 4) == Bit(b, 3) && Bit(Reverse8(b), 5) == Bit(b, 2)
    ensures Bit(Reverse8(b), 6) == Bit(b, 1) && Bit(Reverse8(b), 7) == Bit(b, 0)
  {
  }

  /** The three exchanges turn a byte round, bit by bit. */
  lemma Reverse8Mirrors(b: Byte)
    ensures Mirrors(Reverse8(b), b)
  {
    LowBits(b);
    HighBits(b);
  }

  /** Reversing twice is the identity, and an erased byte stays erased. */
  lemma Reverse8Twice(b: Byte)
    ensures Reverse8(Reverse8(b)) == b && Reverse8(ERASED) == ERASED && Mirrors(Reverse8(b), b)
  {
    Reverse8Mirrors(b);
  }

  function Reversed(s: seq<Byte>): (r: seq<Byte>)
    ensures |r| == |s| && forall i | 0 <= i < |s| :: r[i] == Reverse8(s[i])
  {
    seq(|s|, i requires 0 <= i < |s| => Reverse8(s[i]))
  }

  lemma ReversedTwice(s: seq<Byte>)
    ensures Reversed(Reversed(s)) == s
  {
    forall i | 0 <= i < |s|
      ensures Reversed(Reversed(s))[i] == s[i]
    {
      Reverse8Twice(s[i]);
    }
  }

  method ReverseInPlace(buf: array<Byte>)
    modifies buf
    ensures buf[..] == Reversed(old(buf[..]))
    ensures forall i | 0 <= i < buf.Length :: Mirrors(buf[i], old(buf[i]))
  {
    for k := 0 to buf.Length
      invariant forall i | 0 <= i < k :: buf[i] == Reverse8(old(buf[i])) && Mirrors(buf[i], old(buf[i]))
      invariant forall i | k <= i < buf.Length :: buf[i] == old(buf[i])
    {
      Reverse8Mirrors(buf[k]);
      buf[k] := Reverse8(buf[k]);
    }
  }

  // ---------------------------------------------------------------- 16-bit words, low byte first

  /** Exchange neighbouring bits, pairs of bits, nibbles and bytes. */
  function Bits16(w: bv16): bv16 { ((w & 0x5555) << 1) | ((w & 0xAAAA) >> 1) }
  function Pairs16(w: bv16): bv16 { ((w & 0x3333) << 2) | ((w & 0xCCCC) >> 2) }
  function Nibbles16(w: bv16): bv16 { ((w & 0x0F0F) << 4) | ((w & 0xF0F0) >> 4) }
  function Bytes16(w: bv16): bv16 { ((w & 0x00FF) << 8) | ((w & 0xFF00) >> 8) }

  function Reverse16(w: bv16): bv16 { Bytes16(Nibbles16(Pairs16(Bits16(w)))) }

  /** A word in memory: the low byte first. */
  function Above(lo: bv16, hi: bv16): bv16 { (hi << 8) | lo }
  function Wide(b: Byte): bv16 { b as bv16 }
  function Join(lo: Byte, hi: Byte): bv16 { Above(Wide(lo), Wide(hi)) }

  lemma BitsOfBoth(w: bv16, x: bv16)
    ensures Bits16(w | x) == Bits16(w) | Bits16(x)
  {
  }

  lemma BitsOfHigh(x: bv16)
    requires x & 0xff00 == 0
    ensures Bits16(x << 8) == Bits16(x) << 8
  {
  }

  lemma BitsOfAbove(lo: bv16, hi: bv16)
    requires hi & 0xff00 == 0
    ensures Bits16(Above(lo, hi)) == Above(Bits16(lo), Bits16(hi))
  {
    BitsOfBoth(hi << 8, lo);
    BitsOfHigh(hi);
  }

  lemma PairsOfBoth(w: bv16, x: bv16)
    ensures Pairs16(w | x) == Pairs16(w) | Pairs16(x)
  {
  }

  lemma PairsOfHigh(x: bv16)
    requires x & 0xff00 == 0
    ensures Pairs16(x << 8) == Pairs16(x) << 8
  {
  }

  lemma PairsOfAbove(lo: bv16, hi: bv16)
    requires hi & 0xff00 == 0
    ensures Pairs16(Above(lo, hi)) == Above(Pairs16(lo), Pairs16(hi))
  {
    PairsOfBoth(hi << 8, lo);
    PairsOfHigh(hi);
  }

  lemma NibblesOfBoth(w: bv16, x: bv16)
    ensures Nibbles16(w | x) == Nibbles16(w) | Nibbles16(x)
  {
  }

  lemma NibblesOfHigh(x: bv16)
    requires x & 0xff00 == 0
    ensures Nibbles16(x << 8) == Nibbles16(x) << 8
  {
  }

  lemma NibblesOfAbove(lo: bv16, hi: bv16)
    requires hi & 0xff00 == 0
    ensures Nibbles16(Above(lo, hi)) == Above(Nibbles16(lo), Nibbles16(hi))
  {
    NibblesOfBoth(hi << 8, lo);
    NibblesOfHigh(hi);
  }

  lemma WideCommutes(b: Byte)
    ensures Wide(b) & 0xff00 == 0 && Bits16(Wide(b)) == Wide(Bits8(b))
    ensures Pairs16(Wide(b)) == Wide(Pairs8(b)) && Nibbles16(Wide(b)) == Wide(Nibbles8(b))
  {
  }

  lemma BitsOfJoin(lo: Byte, hi: Byte)
    ensures Bits16(Join(lo, hi)) == Join(Bits8(lo), Bits8(hi))
  {
    var l, h := Wide(lo), Wide(hi);
    WideCommutes(lo);
    WideCommutes(hi);
    BitsOfAbove(l, h);
  }

  lemma PairsOfJoin(lo: Byte, hi: Byte)
    ensures Pairs16(Join(lo, hi)) == Join(Pairs8(lo), Pairs8(hi))
  {
    var l, h := Wide(lo), Wide(hi);
    WideCommutes(lo);
    WideCommutes(hi);
    PairsOfAbove(l, h);
  }

  lemma NibblesOfJoin(lo: Byte, hi: Byte)
    ensures Nibbles16(Join(lo, hi)) == Join(Nibbles8(lo), Nibbles8(hi))
  {
    var l, h := Wide(lo), Wide(hi);
    WideCommutes(lo);
    WideCommutes(hi);
    NibblesOfAbove(l, h);
  }

  lemma JoinSwapped(lo: Byte, hi: Byte)
    ensures Bytes16(Join(lo, hi)) == Join(hi, lo)
  {
  }

  /** Reversing a word reverses both bytes and exchanges them. */
  lemma Reverse16Bytes(lo: Byte, hi: Byte)
    ensures Reverse16(Join(lo, hi)) == Join(Reverse8(hi), Reverse8(lo))
    ensures Mirrors(Reverse8(lo), lo) && Mirrors(Reverse8(hi), hi)
  {
    Reverse8Mirrors(lo);
    Reverse8Mirrors(hi);
    var lo1, hi1 := Bits8(lo), Bits8(hi);
    var lo2, hi2 := Pairs8(lo1), Pairs8(hi1);
    BitsOfJoin(lo, hi);
    PairsOfJoin(lo1, hi1);
    NibblesOfJoin(lo2, hi2);
    JoinSwapped(Nibbles8(lo2), Nibbles8(hi2));
  }

  /** The two bytes of a word. */
  function LowByte(w: bv16): Byte { (w & 0xff) as Byte }
  function HighByte(w: bv16): Byte { (w >> 8) as Byte }

  lemma JoinBytes(lo: Byte, hi: Byte)
    ensures LowByte(Join(lo, hi)) == lo && HighByte(Join(lo, hi)) == hi
  {
  }

  function Mate(i: nat): nat { if i % 2 == 0 then i + 1 else i - 1 }

  function WordsReversed(s: seq<Byte>): (r: seq<Byte>)
    requires |s| % 2 == 0
    ensures |r| == |s| && forall i | 0 <= i < |s| :: r[i] == Reverse8(s[Mate(i)])
  {
    seq(|s|, i requires 0 <= i < |s| => Reverse8(s[Mate(i)]))
  }

  /** Bit i of the k-th word of a buffer, in which the low byte of a word comes first. */
  predicate WordBit(s: seq<Byte>, k: nat, i: nat)
    requires 2 * k + 1 < |s|
  {
    if i < 8 then Bit(s[2 * k], i) else Bit(s[2 * k + 1], i - 8)
  }

  /** Every word of r has the bits of that word of s in the opposite order. */
  ghost predicate WordsMirror(r: seq<Byte>, s: seq<Byte>) {
    |r| == |s| && forall k, i | 0 <= k < |s| / 2 && 0 <= i < 16 :: WordBit(r, k, i) == WordBit(s, k, 15 - i)
  }

  lemma WordMirrors(r: seq<Byte>, s: seq<Byte>, k: nat, i: nat)
    requires |r| == |s| && 2 * k + 1 < |s| && i < 16
    requires Mirrors(r[2 * k], s[2 * k + 1]) && Mirrors(r[2 * k + 1], s[2 * k])
    ensures WordBit(r, k, i) == WordBit(s, k, 15 - i)
  {
    if i < 8 {
      assert Bit(r[2 * k], i) == Bit(s[2 * k + 1], 7 - i);
    } else {
      assert Bit(r[2 * k + 1], i - 8) == Bit(s[2 * k], 7 - (i - 8));
    }
  }

  /** Reversing the words turns each of them round as a whole. */
  lemma WordsReversedMirror(s: seq<Byte>)
    requires |s| % 2 == 0
    ensures WordsMirror(WordsReversed(s), s)
  {
    var r := WordsReversed(s);
    forall k, i | 0 <= k < |s| / 2 && 0 <= i < 16
      ensures WordBit(r, k, i) == WordBit(s, k, 15 - i)
    {
      Reverse8Mirrors(s[2 * k]);
      Reverse8Mirrors(s[2 * k + 1]);
      assert Mate(2 * k) == 2 * k + 1 && Mate(2 * k + 1) == 2 * k;
      WordMirrors(r, s, k, i);
    }
  }

  method ReverseWord(lo: Byte, hi: Byte) returns (lo': Byte, hi': Byte)
    ensures lo' == Reverse8(hi) && hi' == Reverse8(lo)
  {
    var w := Reverse16(Join(lo, hi));
    Reverse16Bytes(lo, hi);
    JoinBytes(Reverse8(hi), Reverse8(lo));
    lo', hi' := LowByte(w), HighByte(w);
  }

  method ReverseWords(buf: array<Byte>)
    requires buf.Length % 2 == 0
    modifies buf
    ensures buf[..] == WordsReversed(old(buf[..])) && WordsMirror(buf[..], old(buf[..]))
  {
    WordsReversedMirror(buf[..]);
    ghost var r := WordsReversed(buf[..]);
    var k := 0;
    while k < buf.Length
      invariant k <= buf.Length && k % 2 == 0 && |r| == buf.Length
      invariant forall i | 0 <= i < k :: buf[i] == r[i]
      invariant forall i | k <= i < buf.Length :: buf[i] == old(buf[i])
    {
      assert r[k] == Reverse8(old(buf[..])[Mate(k)]) && r[k + 1] == Reverse8(old(buf[..])[Mate(k + 1)]);
      var lo, hi := ReverseWord(buf[k], buf[k + 1]);
      buf[k], buf[k + 1] := lo, hi;
      k := k + 2;
    }
  }
}
