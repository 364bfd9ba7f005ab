/** Seconds/nanoseconds arithmetic on 64-bit `long` fields.  `Long` is a newtype, so every
    addition, shift and negation below carries a proof that it does not overflow. */
module Timespecs {
  import opened Bits

  newtype Long = x: int | -0x8000_0000_0000_0000 <= x <= 0x7fff_ffff_ffff_ffff

  const LONG_MAX: Long := 0x7fff_ffff_ffff_ffff
  const NSEC_PER_SEC: Long := 1_000_000_000

  /** The two constants as mathematical integers, and the first value of tv_sec at which the
      doubling loop of Mod gives up (LONG_MAX >> 1). */
  const G: int := 1_000_000_000
  const SEC_LIMIT: int := 0x8000_0000_0000_0000
  const HALF: int := 0x3fff_ffff_ffff_ffff

  datatype Timespec = Timespec(sec: Long, nsec: Long) {
    function Total(): int { sec as int * G + nsec as int }

    /** The form promised by timespec_normalise. */
    predicate Normal() {
      && -1_000_000_000 < nsec < 1_000_000_000
      && (sec > 0 ==> nsec >= 0)
      && (sec < 0 ==> nsec <= 0)
    }
  }

  /** The values that have a normal form with fields of type long. */
  predicate Representable(t: int) { -(SEC_LIMIT + 1) * G < t < SEC_LIMIT * G }

  /** The values whose normal form can be negated without overflow. */
  predicate Negatable(t: int) { -SEC_LIMIT * G < t < SEC_LIMIT * G }

  function Abs(x: int): nat { if x < 0 then -x else x }

  /** The floored remainder: zero or of the sign of b. */
  function FloorMod(a: int, b: int): int
    requires b != 0
  {
    if b > 0 then a % b else -((-a) % (-b))
  }

  predicate IsFloorRemainder(a: int, b: int, q: int, r: int) {
    a == q * b + r && (b > 0 ==> 0 <= r < b) && (b < 0 ==> b < r <= 0)
  }

  /** FloorMod is the one and only r with a == q * b + r, |r| < |b| and the sign of b. */
  lemma FloorModUnique(a: int, b: int, q: int, r: int)
    requires b != 0
    requires IsFloorRemainder(a, b, q, r)
    ensures r == FloorMod(a, b)
  {
    if b > 0 {
      ModUnique(a, b, q, r);
    } else {
      assert -a == q * (-b) + (-r);
      ModUnique(-a, -b, q, -r);
    }
  }

  lemma FloorModExists(a: int, b: int) returns (q: int)
    requires b != 0
    ensures IsFloorRemainder(a, b, q, FloorMod(a, b))
  {
    if b > 0 {
      q := a / b;
    } else {
      q := (-a) / (-b);
      assert -a == q * (-b) + (-a) % (-b);
    }
  }

  // ---------------------------------------------------------------- comparators

  predicate Eq(a: Timespec, b: Timespec) { a.sec == b.sec && a.nsec == b.nsec }
  predicate Gt(a: Timespec, b: Timespec) { a.sec > b.sec || (a.sec == b.sec && a.nsec > b.nsec) }
  predicate Ge(a: Timespec, b: Timespec) { a.sec > b.sec || (a.sec == b.sec && a.nsec >= b.nsec) }
  predicate Lt(a: Timespec, b: Timespec) { a.sec < b.sec || (a.sec == b.sec && a.nsec < b.nsec) }
  predicate Le(a: Timespec, b: Timespec) { a.sec < b.sec || (a.sec == b.sec && a.nsec <= b.nsec) }

  /** On normal forms the five field-wise comparisons are the integer order on nanoseconds;
      in particular each value has one normal form. */
  lemma ComparatorsAreIntegerOrder(a: Timespec, b: Timespec)
    requires a.Normal() && b.Normal()
    ensures Eq(a, b) <==> a.Total() == b.Total()
    ensures Gt(a, b) <==> a.Total() > b.Total()
    ensures Ge(a, b) <==> a.Total() >= b.Total()
    ensures Lt(a, b) <==> a.Total() < b.Total()
    ensures Le(a, b) <==> a.Total() <= b.Total()
  {
    if a.sec as int > b.sec as int {
      assert a.sec as int >= b.sec as int + 1;
    } else if a.sec as int < b.sec as int {
      assert b.sec as int >= a.sec as int + 1;
    }
  }

  // ---------------------------------------------------------------- normalise, add, sub

  method Normalise(ts: Timespec) returns (r: Timespec)
    requires Representable(ts.Total())
    ensures r.Normal() && r.Total() == ts.Total()
    ensures ts.Normal() ==> r == ts
  {
    r := ts;
    while r.nsec >= NSEC_PER_SEC
      invariant r.Total() == ts.Total()
      invariant r == ts || (0 <= r.nsec && ts.nsec >= NSEC_PER_SEC)
      decreases r.nsec as int
    {
      r := r.(sec := r.sec + 1);
      r := r.(nsec := r.nsec - NSEC_PER_SEC);
    }
    while r.nsec <= -NSEC_PER_SEC
      invariant r.Total() == ts.Total() && r.nsec < NSEC_PER_SEC
      invariant r == ts || (0 <= r.nsec && ts.nsec >= NSEC_PER_SEC) || (r.nsec <= 0 && ts.nsec <= -NSEC_PER_SEC)
      decreases -(r.nsec as int)
    {
      r := r.(sec := r.sec - 1);
      r := r.(nsec := r.nsec + NSEC_PER_SEC);
    }
    if r.nsec < 0 && r.sec > 0 {
      r := r.(sec := r.sec - 1);
      r := r.(nsec := NSEC_PER_SEC - (-1 * r.nsec));
    } else if r.nsec > 0 && r.sec < 0 {
      r := r.(sec := r.sec + 1);
      r := r.(nsec := -NSEC_PER_SEC - (-1 * r.nsec));
    }
  }

  method Add(ts1: Timespec, ts2: Timespec) returns (r: Timespec)
    requires Representable(ts1.Total()) && Representable(ts2.Total())
    requires Representable(ts1.Total() + ts2.Total())
    ensures r.Normal() && r.Total() == ts1.Total() + ts2.Total()
  {
    var a := Normalise(ts1);
    var b := Normalise(ts2);
    a := a.(sec := a.sec + b.sec);
    a := a.(nsec := a.nsec + b.nsec);
    r := Normalise(a);
  }

  /** The subtraction of the fields, and the normal form of its result, stay in range exactly when the difference has a
      normal form and the subtrahend can be negated or the minuend has negative seconds. */
  lemma SubFitsIff(a: Timespec, b: Timespec)
    requires a.Normal() && b.Normal()
    ensures -SEC_LIMIT <= a.sec as int - b.sec as int < SEC_LIMIT && Representable(a.Total() - b.Total())
       <==> Representable(a.Total() - b.Total()) && (Negatable(b.Total()) || a.Total() <= -G)
  {
    var d := a.sec as int - b.sec as int;
    assert a.Total() - b.Total() == d * G + (a.nsec as int - b.nsec as int);
    if d >= SEC_LIMIT && a.sec >= 1 {
      assert b.sec < 0 && a.nsec >= 0 && b.nsec <= 0;
    } else if d < -SEC_LIMIT {
      assert a.sec < 0 && b.sec > 0 && a.nsec <= 0 && b.nsec >= 0;
    }
  }

  method Sub(ts1: Timespec, ts2: Timespec) returns (r: Timespec)
    requires Representable(ts1.Total()) && Representable(ts2.Total())
    requires Representable(ts1.Total() - ts2.Total())
    requires Negatable(ts2.Total()) || ts1.Total() <= -G
    ensures r.Normal() && r.Total() == ts1.Total() - ts2.Total()
  {
    var a := Normalise(ts1);
    var b := Normalise(ts2);
    a := a.(sec := a.sec - b.sec);
    a := a.(nsec := a.nsec - b.nsec);
    r := Normalise(a);
  }

  // ---------------------------------------------------------------- mod

  /** The shifted divisor: non-negative, with tv_nsec allowed to reach exactly one second. */
  predicate Shifted(ts: Timespec) { ts.sec >= 0 && 0 <= ts.nsec <= NSEC_PER_SEC }

  /** Comparing a normal dividend with a shifted divisor is exact although the divisor
      need not be in normal form. */
  lemma GeShifted(a: Timespec, b: Timespec)
    requires a.Normal() && a.Total() >= 0 && Shifted(b)
    ensures a.sec >= 0 && a.nsec >= 0
    ensures Ge(a, b) <==> a.Total() >= b.Total()
  {
    if a.sec as int > b.sec as int {
      assert a.sec as int >= b.sec as int + 1;
    } else if a.sec as int < b.sec as int {
      assert b.sec as int >= a.sec as int + 1;
    }
  }

  /** b shifted left i times. */
  function Shl(b: nat, i: nat): (s: nat)
    ensures s >= b
  {
    if i == 0 then b else 2 * Shl(b, i - 1)
  }

  /** The doubling loop gives up at shift count i.  A shifted divisor of exactly HALF seconds is
      held as (HALF - 1, 10^9) when i > 0, so that value does not stop it. */
  predicate GivesUp(b: nat, i: nat) {
    Shl(b, i) >= HALF * G && (i == 0 || Shl(b, i) != HALF * G)
  }

  /** The dividend is so close to LONG_MAX seconds that the doubling loop gives up one
      doubling too early: twice the largest shifted divisor is still not above it. */
  ghost predicate StopsEarly(a: int, b: int) {
    exists i: nat :: GivesUp(Abs(b), i) && Overshoots(a, b, 2 * Shl(Abs(b), i))
  }

  predicate Overshoots(a: int, b: int, twiceTop: int) {
    if (a < 0) == (b < 0) then Abs(a) >= twiceTop else Abs(a) > twiceTop
  }

  method Double(ts: Timespec) returns (r: Timespec)
    requires Shifted(ts) && ts.sec as int < HALF
    ensures Shifted(r) && r.Total() == 2 * ts.Total()
    ensures r.sec % 2 == 0 || r.nsec > 0
  {
    r := ts.(nsec := ts.nsec * 2);
    r := r.(sec := r.sec * 2);
    if r.nsec > NSEC_PER_SEC {
      r := r.(nsec := r.nsec - NSEC_PER_SEC);
      r := r.(sec := r.sec + 1);
    }
  }

  method Halve(ts: Timespec) returns (r: Timespec)
    requires Shifted(ts) && ts.Total() % 2 == 0
    ensures Shifted(r) && 2 * r.Total() == ts.Total()
  {
    r := ts;
    if r.sec % 2 == 1 {
      r := r.(nsec := r.nsec + NSEC_PER_SEC);
    }
    assert r.nsec % 2 == 0;
    r := r.(nsec := r.nsec / 2);
    r := r.(sec := r.sec / 2);
  }

  /** A shifted divisor still below the guard has not given up at this shift count. */
  lemma BelowGuard(ts: Timespec, b: nat, i: nat)
    requires Shifted(ts) && ts.Total() == Shl(b, i)
    requires ts.sec as int < HALF
    requires i == 0 ==> ts.Normal()
    ensures !GivesUp(b, i)
  {
  }

  /** A shifted divisor at the guard has given up at this shift count. */
  lemma AtGuard(ts: Timespec, b: nat, i: nat)
    requires Shifted(ts) && ts.Total() == Shl(b, i)
    requires ts.sec as int >= HALF
    requires i > 0 ==> ts.sec % 2 == 0 || ts.nsec > 0
    ensures GivesUp(b, i)
  {
    if i > 0 && Shl(b, i) == HALF * G {
      assert false;
    }
  }

  /** Shift the divisor until it exceeds the dividend or is about to overflow. */
  method ShiftUp(ts1: Timespec, ts2: Timespec) returns (i: nat, r: Timespec)
    requires ts1.Normal() && ts1.Total() >= 0
    requires ts2.Normal() && ts2.Total() > 0
    ensures Shifted(r) && r.Total() == Shl(ts2.Total(), i) && i <= 95
    ensures ts1.Total() >= 2 * r.Total() ==> GivesUp(ts2.Total(), i)
    ensures forall j: nat | j < i :: !GivesUp(ts2.Total(), j)
  {
    i, r := 0, ts2;
    ghost var b := ts2.Total();
    GeShifted(ts1, r);
    while r.sec < LONG_MAX / 2 && Ge(ts1, r)
      invariant Shifted(r) && r.Total() == Shl(b, i)
      invariant i == 0 ==> r == ts2
      invariant i > 0 ==> r.sec % 2 == 0 || r.nsec > 0
      invariant forall j: nat | j < i :: !GivesUp(b, j)
      decreases ts1.Total() - r.Total()
    {
      BelowGuard(r, b, i);
      GeShifted(ts1, r);
      r := Double(r);
      i := i + 1;
    }
    GeShifted(ts1, r);
    ShiftCountIsSmall(b, i);
    if ts1.Total() >= 2 * r.Total() {
      AtGuard(r, b, i);
    }
  }

  lemma {:induction false} ShlIsProduct(b: nat, i: nat)
    ensures Shl(b, i) == Pow2(i) * b
  {
    if i > 0 {
      ShlIsProduct(b, i - 1);
    }
  }

  lemma {:induction false} ShlMonotone(b: nat, i: nat, j: nat)
    requires i <= j
    ensures Shl(b, i) <= Shl(b, j)
  {
    if i < j {
      ShlMonotone(b, i, j - 1);
    }
  }

  /** r is what is left of a after subtracting b some number of times. */
  ghost predicate Residue(a: int, b: nat, r: int)
    decreases a - r
  {
    r == a || (b > 0 && r <= a - b && Residue(a - b, b, r))
  }

  lemma {:induction false} ResidueOne(a: int, b: nat, r: int)
    requires b > 0 && Residue(a, b, r)
    ensures Residue(a, b, r - b)
    decreases a - r
  {
    if r != a {
      ResidueOne(a - b, b, r);
    }
  }

  /** Subtracting the divisor shifted by i is subtracting it 2^i times. */
  lemma {:induction false} ResidueStep(a: int, b: nat, r: int, i: nat)
    requires b > 0 && Residue(a, b, r)
    ensures Residue(a, b, r - Shl(b, i))
    decreases i
  {
    if i == 0 {
      ResidueOne(a, b, r);
    } else {
      ResidueStep(a, b, r, i - 1);
      ResidueStep(a, b, r - Shl(b, i - 1), i - 1);
    }
  }

  lemma {:induction false} SmallResidue(a: int, b: nat, r: int)
    requires 0 <= r < b && Residue(a, b, r)
    ensures r == a % b
    decreases a - r
  {
    if r == a {
      ModUnique(a, b, 0, r);
    } else {
      SmallResidue(a - b, b, r);
      assert a == ((a - b) / b + 1) * b + r by {
        assert a - b == (a - b) / b * b + (a - b) % b;
      }
      ModUnique(a, b, (a - b) / b + 1, r);
    }
  }

  method SubtractIfGe(ts: Timespec, d: Timespec, ghost a: int, ghost b: nat, ghost i: nat) returns (r: Timespec)
    requires ts.Normal() && ts.Total() >= 0 && Shifted(d) && d.Total() == Shl(b, i)
    requires b > 0 && Residue(a, b, ts.Total())
    ensures r.Normal() && r.Total() >= 0 && Residue(a, b, r.Total())
    ensures r.Total() == if ts.Total() >= d.Total() then ts.Total() - d.Total() else ts.Total()
  {
    r := ts;
    GeShifted(r, d);
    if Ge(r, d) {
      ResidueStep(a, b, r.Total(), i);
      r := Sub(r, d);
    }
  }

  /** Division by repeated subtraction while the divisor is shifted back down. */
  method Divide(dividend: Timespec, top: Timespec, shift: nat, ghost b: nat) returns (r: Timespec, d: Timespec)
    requires dividend.Normal() && dividend.Total() >= 0
    requires b > 0 && Shifted(top) && top.Total() == Shl(b, shift)
    ensures r.Normal() && r.Total() >= 0 && Shifted(d) && d.Total() == b
    ensures dividend.Total() < 2 * top.Total() ==> r.Total() < b && Residue(dividend.Total(), b, r.Total())
    ensures dividend.Total() >= 2 * top.Total() ==> r.Total() == dividend.Total() - 2 * top.Total() + b
  {
    r, d := dividend, top;
    var i := shift;
    ghost var a, tt := dividend.Total(), 2 * top.Total();
    while true
      invariant r.Normal() && r.Total() >= 0
      invariant Shifted(d) && d.Total() == Shl(b, i)
      invariant Residue(a, b, r.Total())
      invariant a < tt ==> r.Total() < 2 * Shl(b, i)
      invariant a >= tt ==> r.Total() == a - tt + 2 * Shl(b, i)
      decreases i
    {
      r := SubtractIfGe(r, d, a, b, i);
      if i == 0 {
        break;
      }
      ShlHalf(b, i);
      i := i - 1;
      d := Halve(d);
    }
  }

  lemma ShlHalf(b: nat, i: nat)
    requires i > 0
    ensures Shl(b, i) == 2 * Shl(b, i - 1)
  {
  }

  /** What the two loops leave of the dividend when twice the top divisor is tt. */
  function Reduced(a: nat, b: nat, tt: int): int
    requires b > 0
  {
    if a < tt then a % b else a - tt + b
  }

  method Reduce(a: Timespec, b: Timespec) returns (r: Timespec, d: Timespec, ghost i: nat)
    requires a.Normal() && a.Total() >= 0
    requires b.Normal() && b.Total() > 0
    ensures r.Normal() && r.Total() >= 0 && Shifted(d) && d.Total() == b.Total()
    ensures r.Total() == Reduced(a.Total(), b.Total(), 2 * Shl(b.Total(), i))
    ensures a.Total() >= 2 * Shl(b.Total(), i) ==> GivesUp(b.Total(), i)
    ensures forall j: nat | j < i :: !GivesUp(b.Total(), j)
  {
    var shift, top := ShiftUp(a, b);
    i := shift;
    r, d := Divide(a, top, shift, b.Total());
    if a.Total() < 2 * top.Total() {
      SmallResidue(a.Total(), b.Total(), r.Total());
    }
  }

  /** Cross zero once when the signs differ, then restore the sign of the dividend. */
  function Signed(a: int, b: int, m: int): int {
    var m' := if (a < 0) != (b < 0) && m != 0 then m - Abs(b) else m;
    if a < 0 then -m' else m'
  }

  lemma MulSigns(q: int, b: int)
    ensures (-q) * b == -(q * b)
    ensures q * (-b) == -(q * b)
    ensures (-q - 1) * b == -(q * b) - b
  {
  }

  /** Undoing the signs turns the remainder of the magnitudes into the floored remainder. */
  lemma SignedIsFloored(a: int, b: int, q: int, m: int)
    requires b != 0 && Abs(a) == q * Abs(b) + m && 0 <= m < Abs(b)
    ensures Signed(a, b, m) == FloorMod(a, b)
  {
    MulSigns(q, b);
    var q' := if (a < 0) == (b < 0) then q else if m == 0 then -q else -q - 1;
    assert IsFloorRemainder(a, b, q', Signed(a, b, m));
    FloorModUnique(a, b, q', Signed(a, b, m));
  }

  /** When twice the top divisor is not above the dividend the result is still right exactly in
      the one case where the final sign correction cancels it. */
  lemma SignedAfterEarlyStop(a: int, b: int, top: int, k: nat)
    requires b != 0 && Abs(a) >= 2 * top && top == k * Abs(b)
    ensures Signed(a, b, Abs(a) - 2 * top + Abs(b)) == FloorMod(a, b) <==> !Overshoots(a, b, 2 * top)
  {
    var A, B := Abs(a), Abs(b);
    var r := Signed(a, b, A - 2 * top + B);
    var q := FloorModExists(a, b);
    if (a < 0) == (b < 0) {
      assert r >= B || r <= -B;
    } else if A > 2 * top {
      assert b > 0 ==> r < 0;
    } else {
      assert r == 0;
      assert 2 * top == (2 * k) * B;
      var z := if (a < 0) == (b < 0) then 2 * k else -(2 * k);
      assert a == z * b + 0;
      FloorModUnique(a, b, z, 0);
    }
  }

  method Magnitude(ts: Timespec) returns (neg: bool, r: Timespec)
    requires ts.Normal() && Negatable(ts.Total())
    ensures r.Normal() && r.Total() == Abs(ts.Total()) && (neg <==> ts.Total() < 0)
  {
    neg, r := false, ts;
    if r.sec < 0 || r.nsec < 0 {
      neg := true;
      r := r.(sec := -r.sec);
      r := r.(nsec := -r.nsec);
    }
  }

  method RestoreSigns(neg1: bool, neg2: bool, ts: Timespec, d: Timespec, ghost a: int, ghost b: int)
    returns (r: Timespec)
    requires ts.Normal() && ts.Total() >= 0 && Shifted(d) && Negatable(d.Total())
    requires (neg1 <==> a < 0) && (neg2 <==> b < 0) && d.Total() == Abs(b)
    ensures r.Normal() && r.Total() == Signed(a, b, ts.Total())
  {
    r := ts;
    if neg1 != neg2 && (r.sec != 0 || r.nsec != 0) {
      r := Sub(r, d);
    }
    if neg1 {
      r := r.(sec := -r.sec);
      r := r.(nsec := -r.nsec);
    }
  }

  /** a - r is a multiple of b between zero and a, and a whole b less than a if they have the same sign. */
  ghost predicate Near(a: int, b: int, r: int) {
    && (if a < 0 then a <= a - r <= 0 else 0 <= a - r <= a)
    && ((a < 0) == (b < 0) ==> Abs(a - r) + Abs(b) <= Abs(a))
    && exists q :: a - r == q * b
  }

  /** timespec_mod: the floored remainder in normal form, for every sign combination, exactly
      when the doubling loop was not stopped early by its overflow guard; otherwise at least congruent. */
  method Mod(ts1: Timespec, ts2: Timespec) returns (r: Timespec)
    requires Representable(ts1.Total()) && Representable(ts2.Total())
    requires ts2.Total() != 0 ==> Negatable(ts1.Total()) && Negatable(ts2.Total())
    ensures r.Normal()
    ensures ts2.Total() == 0 ==> r.Total() == ts1.Total()
    ensures ts2.Total() != 0 ==>
              (r.Total() == FloorMod(ts1.Total(), ts2.Total()) <==> !StopsEarly(ts1.Total(), ts2.Total()))
    ensures ts2.Total() != 0 && StopsEarly(ts1.Total(), ts2.Total()) ==> Near(ts1.Total(), ts2.Total(), r.Total())
  {
    var n1 := Normalise(ts1);
    var n2 := Normalise(ts2);
    if n2.sec == 0 && n2.nsec == 0 {
      return n1;
    }
    ghost var a, b := ts1.Total(), ts2.Total();
    assert b != 0;
    var neg1, a1 := Magnitude(n1);
    var neg2, b1 := Magnitude(n2);
    var d;
    ghost var i;
    r, d, i := Reduce(a1, b1);
    Judge(a, b, i, r.Total());
    r := RestoreSigns(neg1, neg2, r, d, a, b);
  }

  lemma SignedModIsFloored(a: int, b: int)
    requires b != 0
    ensures Signed(a, b, Abs(a) % Abs(b)) == FloorMod(a, b)
  {
    SignedIsFloored(a, b, Abs(a) / Abs(b), Abs(a) % Abs(b));
  }

  /** The state in which the doubling loop exits decides StopsEarly. */
  lemma ExitDecides(a: int, b: int, i: nat)
    requires Abs(a) >= 2 * Shl(Abs(b), i) ==> GivesUp(Abs(b), i)
    requires forall j: nat | j < i :: !GivesUp(Abs(b), j)
    ensures StopsEarly(a, b) <==> Overshoots(a, b, 2 * Shl(Abs(b), i))
  {
    if StopsEarly(a, b) {
      var j: nat :| GivesUp(Abs(b), j) && Overshoots(a, b, 2 * Shl(Abs(b), j));
      ShlMonotone(Abs(b), i, j);
    }
  }

  /** StopsEarly decides whether the result is the floored remainder. */
  lemma Judge(a: int, b: int, i: nat, m: int)
    requires b != 0 && m == Reduced(Abs(a), Abs(b), 2 * Shl(Abs(b), i))
    requires Abs(a) >= 2 * Shl(Abs(b), i) ==> GivesUp(Abs(b), i)
    requires forall j: nat | j < i :: !GivesUp(Abs(b), j)
    ensures Signed(a, b, m) == FloorMod(a, b) <==> !StopsEarly(a, b)
    ensures StopsEarly(a, b) ==> Near(a, b, Signed(a, b, m))
  {
    ExitDecides(a, b, i);
    if Abs(a) < 2 * Shl(Abs(b), i) {
      SignedModIsFloored(a, b);
    } else {
      ShlIsProduct(Abs(b), i);
      SignedAfterEarlyStop(a, b, Shl(Abs(b), i), Pow2(i));
      if Overshoots(a, b, 2 * Shl(Abs(b), i)) {
        NearAfterEarlyStop(a, b, Shl(Abs(b), i), Pow2(i));
      }
    }
  }

  lemma TopMultiples(b: int, top: int, k: int)
    requires top == k * Abs(b)
    ensures (2 * k - 1) * b == if b < 0 then Abs(b) - 2 * top else 2 * top - Abs(b)
    ensures (-2 * k) * b == if b < 0 then 2 * top else -2 * top
  {
    MulSigns(k, b);
    assert (2 * k - 1) * b == 2 * (k * b) - b;
    assert (-2 * k) * b == -2 * (k * b);
  }

  lemma NearAt(a: int, b: int, top: int, r: int, q: int, p: int)
    requires b != 0 && top >= Abs(b) && Overshoots(a, b, 2 * top) && r == Signed(a, b, Abs(a) - 2 * top + Abs(b))
    requires p == q * b
    requires if (a < 0) == (b < 0) then p == if b < 0 then Abs(b) - 2 * top else 2 * top - Abs(b)
             else p == if b < 0 then 2 * top else -2 * top
    ensures Near(a, b, r)
  {
    assert a - r == q * b;
  }

  lemma NearAfterEarlyStop(a: int, b: int, top: int, k: nat)
    requires b != 0 && k >= 1 && top == k * Abs(b) && Overshoots(a, b, 2 * top)
    ensures Near(a, b, Signed(a, b, Abs(a) - 2 * top + Abs(b)))
  {
    MulAtLeast(k, Abs(b));
    TopMultiples(b, top, k);
    var q := if (a < 0) == (b < 0) then 2 * k - 1 else -2 * k;
    NearAt(a, b, top, Signed(a, b, Abs(a) - 2 * top + Abs(b)), q, q * b);
  }

  /** A caller whose dividend stays two seconds below LONG_MAX always gets the floored remainder. */
  lemma NoEarlyStop(a: int, b: int)
    requires Abs(a) < (SEC_LIMIT - 2) * G
    ensures !StopsEarly(a, b)
  {
  }

  /** The guard does bite: (LONG_MAX - 1, 0) mod (LONG_MAX >> 1, 0) is not computed correctly. */
  lemma EarlyStopHappens()
    ensures StopsEarly((SEC_LIMIT - 2) * G, HALF * G)
    ensures Negatable((SEC_LIMIT - 2) * G) && Negatable(HALF * G)
  {
    var a, b := (SEC_LIMIT - 2) * G, HALF * G;
    assert GivesUp(Abs(b), 0) && Overshoots(a, b, 2 * Shl(Abs(b), 0));
  }

  lemma Shl4(b: nat, i: nat)
    ensures Shl(b, i + 4) == 16 * Shl(b, i)
  {
    assert Shl(b, i + 2) == 4 * Shl(b, i);
    assert Shl(b, i + 4) == 4 * Shl(b, i + 2);
  }

  lemma Shl16(b: nat, i: nat)
    ensures Shl(b, i + 16) == 0x1_0000 * Shl(b, i)
  {
    Shl4(b, i);
    Shl4(b, i + 4);
    Shl4(b, i + 8);
    Shl4(b, i + 12);
  }

  lemma Shl96(b: nat, i: nat)
    ensures Shl(b, i + 96) == 0x1_0000_0000_0000_0000_0000_0000 * Shl(b, i)
  {
    Shl16(b, i);
    Shl16(b, i + 16);
    Shl16(b, i + 32);
    Shl16(b, i + 48);
    Shl16(b, i + 64);
    Shl16(b, i + 80);
  }

  /** The shift count never comes near the limit of a 32-bit int. */
  lemma ShiftCountIsSmall(b: nat, i: nat)
    requires b > 0 && Shl(b, i) <= SEC_LIMIT * G
    ensures i <= 95
  {
    if i >= 96 {
      Shl96(b, i - 96);
    }
  }

  // ---------------------------------------------------------------- schedule alignment

  /** C division, which truncates toward zero. */
  function TruncDiv(x: int, y: int): int
    requires y > 0
  {
    if x >= 0 then x / y else -((-x) / y)
  }

  /** A 64-bit nanosecond count as a timespec. */
  function SplitNs(ns: Long): (r: Timespec)
    ensures r.Normal() && r.Total() == ns as int
  {
    var sec := TruncDiv(ns as int, G) as Long;
    Timespec(sec, ns - sec * NSEC_PER_SEC)
  }

  /** Moving a start by periods does not overflow: the current time can be negated, and, unless the remainder stops
      early, the last multiple of the period before it and the moved start have a normal form. */
  ghost predicate Movable(start: int, period: int, now: int)
    requires period > 0
  {
    && Negatable(now)
    && (!StopsEarly(now, period) ==>
          Representable(now - FloorMod(now, period)) && Representable(Moved(start, period, now)))
  }

  /** The start that has the old one's place in its period and lies in the current period. */
  function Moved(start: int, period: int, now: int): int
    requires period > 0
  {
    FloorMod(start, period) + now - FloorMod(now, period)
  }

  /** The start-time block shared by the TDMA and periodic-output tools: a start in the past is
      moved, by whole periods, to within one period of the current time. */
  method AlignStart(startNs: Long, periodNs: Long, now: Timespec) returns (start: Timespec, period: Timespec)
    requires periodNs > 0
    requires Lt(SplitNs(startNs), now) ==> Movable(startNs as int, periodNs as int, now.Total())
    ensures period.Normal() && period.Total() == periodNs as int
    ensures start.Normal()
    ensures Congruent(start.Total(), startNs as int, periodNs as int)
    ensures now.Normal() && now.Total() <= startNs as int ==> start.Total() == startNs as int
    ensures now.Normal() && now.Total() > startNs as int && !StopsEarly(now.Total(), periodNs as int) ==>
              && now.Total() - period.Total() < start.Total() < now.Total() + period.Total()
              && (start.Total() > now.Total()
                <==> FloorMod(startNs as int, periodNs as int) > FloorMod(now.Total(), periodNs as int))
  {
    start := SplitNs(startNs);
    period := SplitNs(periodNs);
    if now.Normal() {
      ComparatorsAreIntegerOrder(start, now);
    }
    if Lt(start, now) {
      start := MoveByPeriods(start, period, now);
    } else {
      ModUnique(0, periodNs as int, 0, 0);
    }
  }

  predicate Congruent(x: int, y: int, p: int)
    requires p > 0
  {
    (x - y) % p == 0
  }

  method MoveByPeriods(start: Timespec, period: Timespec, now: Timespec) returns (r: Timespec)
    requires 0 < period.Total() < SEC_LIMIT && -SEC_LIMIT <= start.Total() < SEC_LIMIT
    requires Movable(start.Total(), period.Total(), now.Total())
    ensures r.Normal()
    ensures Congruent(r.Total(), start.Total(), period.Total())
    ensures !StopsEarly(now.Total(), period.Total()) ==>
              && r.Total() == Moved(start.Total(), period.Total(), now.Total())
              && now.Total() - period.Total() < r.Total() < now.Total() + period.Total()
  {
    ghost var s, p, n := start.Total(), period.Total(), now.Total();
    NoEarlyStop(s, p);
    AlignedIsCongruent(s, n, p);
    r := Mod(start, period);
    var rem := Mod(now, period);
    if StopsEarly(n, p) {
      EarlyIsCongruent(s, n, p, rem.Total());
    }
    var aligned := Sub(now, rem);
    r := Add(r, aligned);
  }

  /** When the remainder stops early, nothing overflows, and the moved start is still in its old place in a period. */
  lemma EarlyIsCongruent(s: int, n: int, p: int, rem: int)
    requires 0 < p < SEC_LIMIT && Negatable(n) && StopsEarly(n, p) && Near(n, p, rem)
    ensures Negatable(rem) && Representable(n - rem) && Representable(FloorMod(s, p) + n - rem)
    ensures Congruent(FloorMod(s, p) + n - rem, s, p)
  {
    var q :| n - rem == q * p;
    var k := q - s / p;
    assert FloorMod(s, p) + n - rem - s == k * p by {
      assert s == s / p * p + s % p;
      assert k * p == q * p - s / p * p;
    }
    ModUnique(k * p, p, k, 0);
  }

  lemma AlignedIsCongruent(s: int, n: int, p: int)
    requires p > 0
    ensures Congruent(FloorMod(s, p) + n - FloorMod(n, p), s, p)
    ensures 0 <= FloorMod(s, p) < p && 0 <= FloorMod(n, p) < p
  {
    var k := n / p - s / p;
    assert s % p + (n - n % p) - s == k * p by {
      assert n == n / p * p + n % p;
      assert s == s / p * p + s % p;
      assert k * p == n / p * p - s / p * p;
    }
    ModUnique(k * p, p, k, 0);
  }
}
