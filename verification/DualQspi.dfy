/** Two flash devices that hold one nibble each of every byte behind a shared header. */
module DualQspi {
  import opened Bytes
  import opened NorMemory

  const OFFSET: nat := 0x68

  // ---------------------------------------------------------------- nibbles

  /** A pair of consecutive bytes as the two devices hold it, and back. */
  function PriByte(b0: Byte, b1: Byte): Byte { (b1 & 0x0f) | ((b0 << 4) & 0xf0) }
  function SecByte(b0: Byte, b1: Byte): Byte { ((b1 >> 4) & 0x0f) | (b0 & 0xf0) }
  function Byte0(p: Byte, s: Byte): Byte { ((p >> 4) & 0x0f) | (s & 0xf0) }
  function Byte1(p: Byte, s: Byte): Byte { (p & 0x0f) | ((s << 4) & 0xf0) }

  /** The primary device has the low nibbles of a pair of bytes and the secondary one the high nibbles, those of the
      first byte on top. */
  predicate Halves(p: Byte, s: Byte, b0: Byte, b1: Byte) {
    p >> 4 == b0 & 0x0f && p & 0x0f == b1 & 0x0f && s >> 4 == b0 >> 4 && s & 0x0f == b1 >> 4
  }

  /** Splitting a pair puts each nibble where it belongs, and merging gives the pair back. */
  lemma NibbleRoundTrip(b0: Byte, b1: Byte)
    ensures Halves(PriByte(b0, b1), SecByte(b0, b1), b0, b1)
    ensures Byte0(PriByte(b0, b1), SecByte(b0, b1)) == b0
    ensures Byte1(PriByte(b0, b1), SecByte(b0, b1)) == b1
  {
  }

  lemma NibbleRoundTripBack(p: Byte, s: Byte)
    ensures Halves(p, s, Byte0(p, s), Byte1(p, s))
    ensures PriByte(Byte0(p, s), Byte1(p, s)) == p
    ensures SecByte(Byte0(p, s), Byte1(p, s)) == s
  {
  }

  /** No other bytes have these nibbles. */
  lemma HalvesDetermine(p: Byte, s: Byte, b0: Byte, b1: Byte)
    requires Halves(p, s, b0, b1)
    ensures b0 == Byte0(p, s) && b1 == Byte1(p, s) && p == PriByte(b0, b1) && s == SecByte(b0, b1)
  {
  }

  // ---------------------------------------------------------------- split and merge

  ghost predicate Splittable(n: nat) { n % 2 == 0 && n >= 2 * 0x68 }

  /** The place in the segment of the pair held at index j of the halves. */
  function PairAt(j: nat): nat
    requires j >= 0x68
  {
    0x68 + 2 * (j - 0x68)
  }

  /** p and s are what the devices hold of the pair at index j. */
  ghost predicate HoldsPair(p: Byte, s: Byte, segment: seq<Byte>, j: nat)
    requires Splittable(|segment|) && OFFSET <= j < |segment| / 2
  {
    Halves(p, s, segment[PairAt(j)], segment[PairAt(j) + 1])
  }

  ghost predicate IsSplit(pri: seq<Byte>, sec: seq<Byte>, segment: seq<Byte>)
    requires Splittable(|segment|)
  {
    && |pri| == |sec| == |segment| / 2
    && (forall j | 0 <= j < 0x68 :: pri[j] == segment[j] && sec[j] == 0xff)
    && (forall j | 0x68 <= j < |pri| :: HoldsPair(pri[j], sec[j], segment, j))
  }

  ghost predicate IsMerge(segment: seq<Byte>, pri: seq<Byte>, sec: seq<Byte>)
    requires |pri| == |sec| && Splittable(2 * |pri|)
  {
    && |segment| == 2 * |pri|
    && (forall i | 0 <= i < 0x68 :: segment[i] == pri[i])
    && (forall j | 0x68 <= j < |pri| :: HoldsPair(pri[j], sec[j], segment, j))
    && (forall i | |segment| - 0x68 <= i < |segment| :: segment[i] == 0xff)
  }

  /** memcpy of the header. */
  method CopyHeader(to: array<Byte>, from: seq<Byte>)
    requires OFFSET <= to.Length && OFFSET <= |from|
    modifies to
    ensures forall j | 0 <= j < OFFSET :: to[j] == from[j]
    ensures forall j | OFFSET <= j < to.Length :: to[j] == old(to[j])
  {
    for i := 0 to OFFSET
      invariant forall j | 0 <= j < i :: to[j] == from[j]
      invariant forall j | i <= j < to.Length :: to[j] == old(to[j])
    {
      to[i] := from[i];
    }
  }

  /** The split loop of the write action.  All indices into the halves stay below half the segment. */
  method SplitPairs(segment: seq<Byte>, pri: array<Byte>, sec: array<Byte>)
    requires Splittable(|segment|) && pri != sec && pri.Length == sec.Length == |segment| / 2
    modifies pri, sec
    ensures forall j | 0 <= j < OFFSET :: pri[j] == old(pri[j]) && sec[j] == old(sec[j])
    ensures forall j | OFFSET <= j < pri.Length :: HoldsPair(pri[j], sec[j], segment, j)
  {
    var k, c := OFFSET, OFFSET;
    while k < |segment| - OFFSET
      invariant OFFSET <= c <= pri.Length && k == PairAt(c)
      invariant forall j | 0 <= j < OFFSET :: pri[j] == old(pri[j]) && sec[j] == old(sec[j])
      invariant forall j | OFFSET <= j < c :: HoldsPair(pri[j], sec[j], segment, j)
    {
      NibbleRoundTrip(segment[k], segment[k + 1]);
      pri[c] := PriByte(segment[k], segment[k + 1]);
      sec[c] := SecByte(segment[k], segment[k + 1]);
      k, c := k + 2, c + 1;
    }
  }

  method Split(segment: seq<Byte>) returns (pri: array<Byte>, sec: array<Byte>)
    requires Splittable(|segment|)
    ensures fresh(pri) && fresh(sec) && pri != sec
    ensures IsSplit(pri[..], sec[..], segment)
  {
    var half := |segment| / 2;
    pri := new Byte[half](_ => ERASED);
    sec := new Byte[half](_ => ERASED);
    CopyHeader(pri, segment);
    SplitPairs(segment, pri, sec);
  }

  /** The merge loop of the read action. */
  method MergePairs(pri: seq<Byte>, sec: seq<Byte>, segment: array<Byte>)
    requires |pri| == |sec| && Splittable(segment.Length) && segment.Length == 2 * |pri|
    modifies segment
    ensures forall j | 0 <= j < OFFSET :: segment[j] == old(segment[j])
    ensures forall j | OFFSET <= j < |pri| :: HoldsPair(pri[j], sec[j], segment[..], j)
    ensures forall j | segment.Length - OFFSET <= j < segment.Length :: segment[j] == old(segment[j])
  {
    var k, c := OFFSET, OFFSET;
    while k < segment.Length - OFFSET
      invariant OFFSET <= c <= |pri| && k == PairAt(c)
      invariant forall j | 0 <= j < OFFSET || k <= j < segment.Length :: segment[j] == old(segment[j])
      invariant forall j | OFFSET <= j < c :: HoldsPair(pri[j], sec[j], segment[..], j)
    {
      NibbleRoundTripBack(pri[c], sec[c]);
      segment[k] := Byte0(pri[c], sec[c]);
      segment[k + 1] := Byte1(pri[c], sec[c]);
      k, c := k + 2, c + 1;
    }
  }

  /** The halves merged into a buffer preset to 0xff. */
  method Merge(pri: seq<Byte>, sec: seq<Byte>) returns (segment: array<Byte>)
    requires |pri| == |sec| && Splittable(2 * |pri|)
    ensures fresh(segment) && IsMerge(segment[..], pri, sec)
  {
    segment := new Byte[2 * |pri|](_ => ERASED);
    CopyHeader(segment, pri);
    MergePairs(pri, sec, segment);
  }

  // ---------------------------------------------------------------- round trip

  /** Where byte i of the segment is held. */
  function Holder(i: nat): nat
    requires i >= OFFSET
  {
    OFFSET + (i - OFFSET) / 2
  }

  lemma HolderOf(i: nat, half: nat)
    requires OFFSET <= i < 2 * half - OFFSET
    ensures OFFSET <= Holder(i) < half && (i == PairAt(Holder(i)) || i == PairAt(Holder(i)) + 1)
  {
  }

  lemma SamePair(a: seq<Byte>, b: seq<Byte>, p: Byte, s: Byte, j: nat)
    requires Splittable(|a|) && |a| == |b| && OFFSET <= j < |a| / 2 && HoldsPair(p, s, a, j) && HoldsPair(p, s, b, j)
    ensures a[PairAt(j)] == b[PairAt(j)] && a[PairAt(j) + 1] == b[PairAt(j) + 1]
  {
    HalvesDetermine(p, s, a[PairAt(j)], a[PairAt(j) + 1]);
    HalvesDetermine(p, s, b[PairAt(j)], b[PairAt(j) + 1]);
  }

  /** A byte of the merged segment depends only on what the halves hold at its own index. */
  lemma MergedByte(merged: seq<Byte>, pri: seq<Byte>, sec: seq<Byte>, segment: seq<Byte>, i: nat)
    requires Splittable(|segment|) && |pri| == |sec| == |segment| / 2 && IsMerge(merged, pri, sec)
    requires i < |segment| - OFFSET
    requires i < OFFSET ==> pri[i] == segment[i]
    requires i >= OFFSET ==> Holder(i) < |pri| && HoldsPair(pri[Holder(i)], sec[Holder(i)], segment, Holder(i))
    ensures merged[i] == segment[i]
  {
    if i >= OFFSET {
      HolderOf(i, |pri|);
      var j := Holder(i);
      SamePair(merged, segment, pri[j], sec[j], j);
    }
  }

  /** Splitting and merging gives back everything but the last 0x68 bytes, which come back as 0xff; so it is
      the identity exactly on segments that end in 0x68 bytes of 0xff. */
  lemma SplitThenMerge(segment: seq<Byte>, pri: seq<Byte>, sec: seq<Byte>, merged: seq<Byte>)
    requires Splittable(|segment|) && IsSplit(pri, sec, segment) && IsMerge(merged, pri, sec)
    ensures |merged| == |segment| && merged[..|segment| - OFFSET] == segment[..|segment| - OFFSET]
    ensures merged == segment <==> forall i | |segment| - OFFSET <= i < |segment| :: segment[i] == ERASED
  {
    var n := |segment| - OFFSET;
    forall i | 0 <= i < n
      ensures merged[i] == segment[i]
    {
      if i >= OFFSET { HolderOf(i, |pri|); }
      MergedByte(merged, pri, sec, segment, i);
    }
    if forall i | n <= i < |segment| :: segment[i] == ERASED {
      assert forall i | 0 <= i < |segment| :: merged[i] == segment[i];
    }
  }

  // ---------------------------------------------------------------- how much of the halves is needed

  ghost predicate AgreeUpTo(a: seq<Byte>, b: seq<Byte>, n: nat) { |a| == |b| && n <= |a| && a[..n] == b[..n] }

  /** The first n bytes of each half determine the first len bytes of the segment. */
  ghost predicate HalvesSuffice(segment: seq<Byte>, pri: seq<Byte>, sec: seq<Byte>, n: nat, len: nat)
    requires Splittable(|segment|) && IsSplit(pri, sec, segment) && len <= |segment|
  {
    forall p, s, m | AgreeUpTo(p, pri, n) && AgreeUpTo(s, sec, n) && IsMerge(m, p, s) :: m[..len] == segment[..len]
  }

  /** The shortest prefix of the halves that holds everything the split keeps of the first len bytes. */
  function Needed(len: nat, size: nat): nat
    requires len <= size
  {
    if len <= OFFSET then len else if len <= size - OFFSET then Holder(len - 1) + 1 else size / 2
  }

  /** Nothing but 0xff lies beyond what the split keeps. */
  ghost predicate TailErased(segment: seq<Byte>, len: nat)
    requires OFFSET <= |segment| && len <= |segment|
  {
    forall i | |segment| - OFFSET <= i < len :: segment[i] == ERASED
  }

  lemma NeededCovers(len: nat, size: nat, i: nat)
    requires Splittable(size) && i < len <= size
    ensures i < OFFSET ==> i < Needed(len, size)
    ensures OFFSET <= i < size - OFFSET ==> Holder(i) < Needed(len, size)
  {
  }

  lemma AgreeAt(a: seq<Byte>, b: seq<Byte>, n: nat, i: nat)
    requires AgreeUpTo(a, b, n) && i < n
    ensures a[i] == b[i]
  {
    assert a[..n][i] == b[..n][i];
  }

  lemma CoveredByte(segment: seq<Byte>, pri: seq<Byte>, sec: seq<Byte>, n: nat, len: nat,
                    p: seq<Byte>, s: seq<Byte>, m: seq<Byte>, i: nat)
    requires Splittable(|segment|) && IsSplit(pri, sec, segment) && i < len <= |segment|
    requires Needed(len, |segment|) <= n && TailErased(segment, len)
    requires AgreeUpTo(p, pri, n) && AgreeUpTo(s, sec, n) && IsMerge(m, p, s)
    ensures m[i] == segment[i]
  {
    NeededCovers(len, |segment|, i);
    if i < OFFSET {
      AgreeAt(p, pri, n, i);
    } else if i < |segment| - OFFSET {
      HolderOf(i, |pri|);
      AgreeAt(p, pri, n, Holder(i));
      AgreeAt(s, sec, n, Holder(i));
      MergedByte(m, p, s, segment, i);
    }
  }

  lemma NeededSuffices(segment: seq<Byte>, pri: seq<Byte>, sec: seq<Byte>, n: nat, len: nat)
    requires Splittable(|segment|) && IsSplit(pri, sec, segment) && len <= |segment|
    requires Needed(len, |segment|) <= n && TailErased(segment, len)
    ensures HalvesSuffice(segment, pri, sec, n, len)
  {
    forall p, s, m | AgreeUpTo(p, pri, n) && AgreeUpTo(s, sec, n) && IsMerge(m, p, s)
      ensures m[..len] == segment[..len]
    {
      forall i | 0 <= i < len
        ensures m[i] == segment[i]
      {
        CoveredByte(segment, pri, sec, n, len, p, s, m, i);
      }
    }
  }

  // ---------------------------------------------------------------- what is lost otherwise

  ghost function MergedAt(pri: seq<Byte>, sec: seq<Byte>, i: nat): Byte
    requires |pri| == |sec| && Splittable(2 * |pri|) && i < 2 * |pri|
  {
    if i < OFFSET then pri[i]
    else if i >= 2 * |pri| - OFFSET then ERASED
    else if i % 2 == 0 then Byte0(pri[Holder(i)], sec[Holder(i)])
    else Byte1(pri[Holder(i)], sec[Holder(i)])
  }

  lemma PairHolder(j: nat, half: nat)
    requires OFFSET <= j < half
    ensures Holder(PairAt(j)) == j && Holder(PairAt(j) + 1) == j && PairAt(j) % 2 == 0
            && PairAt(j) + 1 < 2 * half - OFFSET
  {
  }

  /** Any two halves can be merged. */
  lemma SomeMerge(pri: seq<Byte>, sec: seq<Byte>) returns (m: seq<Byte>)
    requires |pri| == |sec| && Splittable(2 * |pri|)
    ensures IsMerge(m, pri, sec)
  {
    m := seq(2 * |pri|, i requires 0 <= i < 2 * |pri| => MergedAt(pri, sec, i));
    forall j | OFFSET <= j < |pri|
      ensures HoldsPair(pri[j], sec[j], m, j)
    {
      PairHolder(j, |pri|);
      NibbleRoundTripBack(pri[j], sec[j]);
    }
  }

  lemma DifferBefore(a: seq<Byte>, b: seq<Byte>, i: nat, n: nat)
    requires i < n <= |a| && n <= |b| && a[i] != b[i]
    ensures a[..n] != b[..n]
  {
    assert a[..n][i] != b[..n][i];
  }

  lemma FlipShows(p: Byte, s: Byte)
    ensures Byte0(p ^ 0x10, s) != Byte0(p, s) && p ^ 0x10 != p
  {
  }

  /** Where a change of entry t of the primary half shows. */
  function ShowsAt(t: nat): nat { if t < OFFSET then t else PairAt(t) }

  lemma FlippedByte(segment: seq<Byte>, pri: seq<Byte>, sec: seq<Byte>, t: nat, p: seq<Byte>, m: seq<Byte>)
    requires Splittable(|segment|) && IsSplit(pri, sec, segment) && t < |pri|
    requires p == pri[t := pri[t] ^ 0x10] && IsMerge(m, p, sec)
    ensures ShowsAt(t) < |segment| && m[ShowsAt(t)] != segment[ShowsAt(t)]
  {
    FlipShows(pri[t], sec[t]);
    if t >= OFFSET {
      assert HoldsPair(pri[t], sec[t], segment, t) && HoldsPair(p[t], sec[t], m, t);
      HalvesDetermine(pri[t], sec[t], segment[PairAt(t)], segment[PairAt(t) + 1]);
      HalvesDetermine(p[t], sec[t], m[PairAt(t)], m[PairAt(t) + 1]);
    }
  }

  lemma LastNeeded(len: nat, size: nat)
    requires Splittable(size) && 0 < len <= size
    ensures 0 < Needed(len, size) <= size / 2 && ShowsAt(Needed(len, size) - 1) < len
  {
  }

  lemma LessLosesAByte(segment: seq<Byte>, pri: seq<Byte>, sec: seq<Byte>, n: nat, len: nat)
    requires Splittable(|segment|) && IsSplit(pri, sec, segment) && len <= |segment|
    requires n < Needed(len, |segment|)
    ensures !HalvesSuffice(segment, pri, sec, n, len)
  {
    LastNeeded(len, |segment|);
    var t := Needed(len, |segment|) - 1;
    var p := pri[t := pri[t] ^ 0x10];
    assert AgreeUpTo(p, pri, n) && AgreeUpTo(sec, sec, n);
    var m := SomeMerge(p, sec);
    FlippedByte(segment, pri, sec, t, p, m);
    DifferBefore(m, segment, ShowsAt(t), len);
  }

  lemma TailLost(segment: seq<Byte>, pri: seq<Byte>, sec: seq<Byte>, n: nat, len: nat)
    requires Splittable(|segment|) && IsSplit(pri, sec, segment) && len <= |segment| && n <= |pri|
    requires !TailErased(segment, len)
    ensures !HalvesSuffice(segment, pri, sec, n, len)
  {
    var i :| |segment| - OFFSET <= i < len && segment[i] != ERASED;
    var m := SomeMerge(pri, sec);
    assert AgreeUpTo(pri, pri, n) && AgreeUpTo(sec, sec, n);
    DifferBefore(m, segment, i, len);
  }

  /** Writing n bytes of each half keeps an image of len bytes exactly when n covers what is needed of it and
      nothing but 0xff lies beyond what the split keeps. */
  lemma HalvesSufficeIff(segment: seq<Byte>, pri: seq<Byte>, sec: seq<Byte>, n: nat, len: nat)
    requires Splittable(|segment|) && IsSplit(pri, sec, segment) && len <= |segment| && n <= |pri|
    ensures HalvesSuffice(segment, pri, sec, n, len) <==> Needed(len, |segment|) <= n && TailErased(segment, len)
  {
    if n < Needed(len, |segment|) {
      LessLosesAByte(segment, pri, sec, n, len);
    } else if !TailErased(segment, len) {
      TailLost(segment, pri, sec, n, len);
    } else {
      NeededSuffices(segment, pri, sec, n, len);
    }
  }

  // ---------------------------------------------------------------- how much of the halves is written

  /** len_int before rounding to whole blocks.  The subtraction wraps for an image shorter than the header, and the
      result is then cut to the whole half. */
  function HalfLength(len: nat, segmentSize: nat): nat {
    if len < OFFSET then segmentSize / 2
    else
      var n := (len - OFFSET) / 2 + OFFSET;
      if n > segmentSize / 2 then segmentSize / 2 else n
  }

  /** The division drops the last byte of an image of odd length, and nothing else. */
  lemma HalfLengthIsShortIff(len: nat, size: nat)
    requires Splittable(size) && len <= size
    ensures HalfLength(len, size) <= size / 2
    ensures Needed(len, size) <= HalfLength(len, size) + 1
    ensures Needed(len, size) <= HalfLength(len, size) <==> !(0x68 < len <= size - 0x68 && len % 2 == 1)
    ensures if len < 0x68 || len > size - 0x68 then HalfLength(len, size) == size / 2
            else HalfLength(len, size) == Needed(len, size) - len % 2
  {
  }
}
