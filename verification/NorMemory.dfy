/** What the flash commands mean for the contents of a NOR memory: erasing sets bytes to 0xff,
    programming can only clear bits. */
module NorMemory {
  import opened Bytes

  const ERASED: Byte := 0xff

  function Erased(m: seq<Byte>, a: nat, n: nat): (r: seq<Byte>)
    ensures |r| == |m|
    ensures forall i | 0 <= i < |m| :: r[i] == if a <= i < a + n then ERASED else m[i]
  {
    seq(|m|, i requires 0 <= i < |m| => if a <= i < a + n then ERASED else m[i])
  }

  function Programmed(m: seq<Byte>, a: nat, d: seq<Byte>): (r: seq<Byte>)
    ensures |r| == |m|
    ensures forall i | 0 <= i < |m| :: r[i] == if a <= i < a + |d| then m[i] & d[i - a] else m[i]
  {
    seq(|m|, i requires 0 <= i < |m| => if a <= i < a + |d| then m[i] & d[i - a] else m[i])
  }

  /** "Copy d into memory at a and touch nothing else": the meaning of a whole transfer. */
  function Stored(m: seq<Byte>, a: nat, d: seq<Byte>): (r: seq<Byte>)
    requires a + |d| <= |m|
    ensures |r| == |m|
  {
    m[..a] + d + m[a + |d|..]
  }

  lemma StoredAt(m: seq<Byte>, a: nat, d: seq<Byte>, i: nat)
    requires a + |d| <= |m| && i < |m|
    ensures Stored(m, a, d)[i] == if a <= i < a + |d| then d[i - a] else m[i]
  {
  }

  lemma ErasedNothing(m: seq<Byte>, a: nat)
    ensures Erased(m, a, 0) == m
  {
  }

  lemma ErasedTwice(m: seq<Byte>, a: nat, n: nat, k: nat)
    ensures Erased(Erased(m, a, n), a + n, k) == Erased(m, a, n + k)
  {
  }

  lemma ProgrammedNothing(m: seq<Byte>, a: nat)
    ensures Programmed(m, a, []) == m
  {
  }

  lemma ProgrammedTwice(m: seq<Byte>, a: nat, d: seq<Byte>, e: seq<Byte>)
    ensures Programmed(Programmed(m, a, d), a + |d|, e) == Programmed(m, a, d + e)
  {
    var l, r := Programmed(Programmed(m, a, d), a + |d|, e), Programmed(m, a, d + e);
    forall i | 0 <= i < |m|
      ensures l[i] == r[i]
    {
      if a + |d| <= i < a + |d| + |e| {
        assert (d + e)[i - a] == e[i - (a + |d|)];
      }
    }
  }

  lemma AndErased(b: Byte)
    ensures ERASED & b == b
  {
  }

  /** Programming over erased memory stores the data exactly. */
  lemma ProgramOverErased(m: seq<Byte>, a: nat, d: seq<Byte>)
    requires a + |d| <= |m|
    ensures Programmed(Erased(m, a, |d|), a, d) == Stored(m, a, d)
  {
    var l := Programmed(Erased(m, a, |d|), a, d);
    forall i | 0 <= i < |m|
      ensures l[i] == Stored(m, a, d)[i]
    {
      StoredAt(m, a, d, i);
      if a <= i < a + |d| {
        AndErased(d[i - a]);
      }
    }
  }
}
