/** Sums of a measure over a sequence, used for the conservation laws. */
module Sums {

  function Sum<T>(s: seq<T>, f: T -> int): int {
    if s == [] then 0 else Sum(s[..|s| - 1], f) + f(s[|s| - 1])
  }

  /** Replacing one element changes the sum by the difference of the two measures. */
  lemma {:induction false} SumUpdate<T>(s: seq<T>, i: nat, x: T, f: T -> int)
    requires i < |s|
    ensures Sum(s[i := x], f) == Sum(s, f) - f(s[i]) + f(x)
  {
    var n := |s| - 1;
    if i == n {
      assert s[i := x][..n] == s[..n];
    } else {
      assert s[i := x][..n] == s[..n][i := x];
      SumUpdate(s[..n], i, x, f);
    }
  }

  lemma {:induction false} SumBounds<T>(s: seq<T>, f: T -> int, lo: int, hi: int)
    requires forall x | x in s :: lo <= f(x) <= hi
    ensures lo * |s| <= Sum(s, f) <= hi * |s|
  {
    if s != [] {
      assert forall x | x in s[..|s| - 1] :: x in s;
      SumBounds(s[..|s| - 1], f, lo, hi);
      assert s[|s| - 1] in s;
    }
  }

  /** With non-negative measures no element exceeds the sum. */
  lemma {:induction false} SumMember<T>(s: seq<T>, f: T -> int, i: nat)
    requires i < |s| && forall x | x in s :: f(x) >= 0
    ensures Sum(s, f) >= f(s[i])
  {
    var t := s[..|s| - 1];
    assert forall x | x in t :: x in s;
    assert s[|s| - 1] in s;
    if i < |s| - 1 {
      SumMember(t, f, i);
    } else {
      SumNonNegative(t, f);
    }
  }

  lemma {:induction false} SumNonNegative<T>(s: seq<T>, f: T -> int)
    requires forall x | x in s :: f(x) >= 0
    ensures Sum(s, f) >= 0
  {
    if s != [] {
      assert forall x | x in s[..|s| - 1] :: x in s;
      SumNonNegative(s[..|s| - 1], f);
      assert s[|s| - 1] in s;
    }
  }

  /** Two measures that agree on every element have the same sum. */
  lemma {:induction false} SumSame<T>(s: seq<T>, f: T -> int, g: T -> int)
    requires forall x | x in s :: f(x) == g(x)
    ensures Sum(s, f) == Sum(s, g)
  {
    if s != [] {
      assert forall x | x in s[..|s| - 1] :: x in s;
      SumSame(s[..|s| - 1], f, g);
      assert s[|s| - 1] in s;
    }
  }

  lemma {:induction false} SumSplit<T>(s: seq<T>, f: T -> int, g: T -> int, h: T -> int)
    requires forall x | x in s :: f(x) == g(x) + h(x)
    ensures Sum(s, f) == Sum(s, g) + Sum(s, h)
  {
    if s != [] {
      assert forall x | x in s[..|s| - 1] :: x in s;
      SumSplit(s[..|s| - 1], f, g, h);
      assert s[|s| - 1] in s;
    }
  }

  lemma {:induction false} SumMonotone<T>(s: seq<T>, f: T -> int, g: T -> int)
    requires forall x | x in s :: f(x) <= g(x)
    ensures Sum(s, f) <= Sum(s, g)
  {
    if s != [] {
      assert forall x | x in s[..|s| - 1] :: x in s;
      SumMonotone(s[..|s| - 1], f, g);
      assert s[|s| - 1] in s;
    }
  }

  /** A measure that is nowhere larger and has the same sum is the same on every element. */
  lemma {:induction false} SumTight<T>(s: seq<T>, f: T -> int, g: T -> int, i: nat)
    requires i < |s| && (forall x | x in s :: f(x) <= g(x)) && Sum(s, f) >= Sum(s, g)
    ensures f(s[i]) == g(s[i])
  {
    var n := |s| - 1;
    assert s[n] in s && (forall x | x in s[..n] :: x in s);
    SumMonotone(s[..n], f, g);
    if i < n {
      SumTight(s[..n], f, g, i);
    }
  }

  /** A smaller sum leaves some element with a smaller measure. */
  lemma {:induction false} SumSlack<T>(s: seq<T>, f: T -> int, g: T -> int) returns (i: nat)
    requires Sum(s, f) < Sum(s, g)
    ensures i < |s| && f(s[i]) < g(s[i])
  {
    var n := |s| - 1;
    if f(s[n]) < g(s[n]) {
      i := n;
    } else {
      i := SumSlack(s[..n], f, g);
    }
  }

  /** A bound on two measures, element by element, bounds their sums. */
  lemma {:induction false} SumOfTwo<T, U>(a: seq<T>, f: T -> int, b: seq<U>, g: U -> int, hi: int)
    requires |a| == |b| && forall i | 0 <= i < |a| :: f(a[i]) + g(b[i]) <= hi
    ensures Sum(a, f) + Sum(b, g) <= hi * |a|
  {
    if a != [] {
      var n := |a| - 1;
      SumOfTwo(a[..n], f, b[..n], g, hi);
      assert f(a[n]) + g(b[n]) <= hi;
    }
  }

  lemma SumPair<T>(a: T, b: T, f: T -> int)
    ensures Sum([a, b], f) == f(a) + f(b)
  {
    assert [a, b][..1] == [a] && [a][..0] == [];
    assert Sum([a], f) == f(a);
  }

  /** The elements for which the measure is 1. */
  ghost predicate Ones<T>(s: seq<T>, f: T -> int, ones: set<nat>) {
    forall i: nat :: i in ones <==> i < |s| && f(s[i]) == 1
  }

  lemma OnesBefore<T>(s: seq<T>, f: T -> int, ones: set<nat>, n: nat)
    requires |s| == n + 1 && Ones(s, f, ones)
    ensures Ones(s[..n], f, ones - {n}) && |ones - {n}| == |ones| - (if f(s[n]) == 1 then 1 else 0)
  {
    if f(s[n]) != 1 {
      assert ones - {n} == ones;
    }
  }

  /** A measure that is 0 or 1 adds up to the number of elements for which it is 1. */
  lemma {:induction false} SumCounts<T>(s: seq<T>, f: T -> int, ones: set<nat>)
    requires forall x | x in s :: f(x) == 0 || f(x) == 1
    requires Ones(s, f, ones)
    ensures Sum(s, f) == |ones|
  {
    if s == [] {
      assert ones == {};
    } else {
      var n := |s| - 1;
      assert s[n] in s && forall x | x in s[..n] :: x in s;
      OnesBefore(s, f, ones, n);
      SumCounts(s[..n], f, ones - {n});
    }
  }
}
