/** Powers of two and masking on unbounded naturals. */
module Bits {

  function Pow2(n: nat): (p: nat)
    ensures p >= 1
  {
    if n == 0 then 1 else 2 * Pow2(n - 1)
  }

  lemma {:induction false} Pow2Grows(p: nat, q: nat)
    requires p < q
    ensures Pow2(p) < Pow2(q)
    decreases q
  {
    if p < q - 1 {
      Pow2Grows(p, q - 1);
    }
  }

  lemma {:induction false} Pow2Sum(m: nat, n: nat)
    ensures Pow2(m + n) == Pow2(n) * Pow2(m)
    decreases n
  {
    if n > 0 {
      Pow2Sum(m, n - 1);
      Doubled(Pow2(n - 1), Pow2(m));
    }
  }

  lemma Doubled(x: int, y: int)
    ensures 2 * (x * y) == (2 * x) * y
  {
  }

  /** Bitwise AND of two naturals, digit by digit. */
  function And(x: nat, y: nat): (r: nat)
    ensures r <= y
  {
    if x == 0 || y == 0 then 0
    else 2 * And(x / 2, y / 2) + (if x % 2 == 1 && y % 2 == 1 then 1 else 0)
  }

  ghost predicate IsPow2(p: nat) {
    exists n: nat :: p == Pow2(n)
  }

  /** `x & (p - 1)` is the remainder modulo p whenever p is a power of two. */
  lemma {:induction false} AndMask(x: nat, n: nat)
    ensures And(x, Pow2(n) - 1) == x % Pow2(n)
  {
    if n == 0 {
    } else if x == 0 {
    } else {
      var h := Pow2(n - 1);
      AndMask(x / 2, n - 1);
      assert (Pow2(n) - 1) / 2 == h - 1 && (Pow2(n) - 1) % 2 == 1;
      HalfMod(x, h);
    }
  }

  lemma HalfMod(x: nat, h: nat)
    requires h >= 1
    ensures x % (2 * h) == 2 * ((x / 2) % h) + x % 2
  {
    var q, r := (x / 2) / h, (x / 2) % h;
    assert x == 2 * (q * h + r) + x % 2;
    assert x == q * (2 * h) + (2 * r + x % 2);
    ModUnique(x, 2 * h, q, 2 * r + x % 2);
  }

  lemma MulAtLeast(k: int, m: int)
    requires k >= 1 && m >= 1
    ensures k * m >= m
  {
  }

  lemma MulMono(a: int, b: int, m: int)
    requires a <= b && m >= 0
    ensures a * m <= b * m
  {
  }

  /** Euclidean division has exactly one quotient and one remainder. */
  lemma ModUnique(x: int, m: int, q: int, r: int)
    requires 0 <= r < m
    requires x == q * m + r
    ensures x % m == r
    ensures x / m == q
  {
    var q', r' := x / m, x % m;
    assert (q - q') * m == r' - r by {
      assert x == q' * m + r';
      assert (q - q') * m == q * m - q' * m;
    }
    if q > q' {
      MulAtLeast(q - q', m);
    } else if q < q' {
      MulAtLeast(q' - q, m);
    }
  }

  /** The smaller of two powers of two divides the larger one, and whatever that divides. */
  lemma Pow2Divides(p: nat, q: nat, x: nat)
    requires IsPow2(p) && IsPow2(q) && p <= q && x % q == 0
    ensures p >= 1 && x % p == 0
  {
    var m: nat, n: nat :| p == Pow2(m) && q == Pow2(n);
    if n < m {
      Pow2Grows(n, m);
    }
    Pow2Sum(m, n - m);
    Multiple(x, Pow2(n - m), p);
  }

  lemma Multiple(x: nat, k: nat, p: nat)
    requires k >= 1 && p >= 1 && x % (k * p) == 0
    ensures x % p == 0
  {
    var u := x / (k * p);
    assert x == u * (k * p) && u * (k * p) == (u * k) * p;
    ModUnique(x, p, u * k, 0);
  }

  lemma MaskIsMod(x: nat, p: nat)
    requires IsPow2(p)
    ensures p >= 1
    ensures And(x, p - 1) == x % p
  {
    var n: nat :| p == Pow2(n);
    AndMask(x, n);
  }
}
