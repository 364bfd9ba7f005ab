/** The grid of an eye scan: which points there are, and in which order a walk visits them. */
module EyeGrid {
  import opened EyeRegisters

  /** The bounds of the scan; `dfe` adds a second polarity at every position. */
  datatype Grid = Grid(hStart: int, hStop: int, hStep: int, vStart: int, vStop: int, vStep: int, dfe: bool)

  ghost predicate Steps(g: Grid) { g.hStep > 0 && g.vStep > 0 }

  // ---------------------------------------------------------------- the walk

  /** The points still to be visited: at the current position, ... */
  function Polarities(h: int, v: int, ut: bool, dfe: bool): seq<Point> {
    if !ut && dfe then [Point(h, v, false), Point(h, v, true)] else [Point(h, v, ut)]
  }

  /** ... in the current column, ... */
  function Column(g: Grid, h: int, v: int, ut: bool): seq<Point>
    requires Steps(g)
    decreases g.vStop - v
  {
    if v < g.vStop then Polarities(h, v, ut, g.dfe) + Column(g, h, v + g.vStep, false) else Polarities(h, v, ut, g.dfe)
  }

  /** ... and in all. */
  function Rest(g: Grid, h: int, v: int, ut: bool): seq<Point>
    requires Steps(g)
    decreases g.hStop - h
  {
    if h < g.hStop then Column(g, h, v, ut) + Rest(g, h + g.hStep, g.vStart, false) else Column(g, h, v, ut)
  }

  function All(g: Grid): seq<Point>
    requires Steps(g)
  {
    Rest(g, g.hStart, g.vStart, false)
  }

  /** The walk goes from (h, v, ut) to (h', v', ut'), or ends if there is no more. */
  ghost predicate Successor(g: Grid, h: int, v: int, ut: bool, more: bool, h': int, v': int, ut': bool) {
    if !ut && g.dfe then more && h' == h && v' == v && ut'
    else
      && !ut'
      && if v < g.vStop then more && h' == h && v' == v + g.vStep
         else if h < g.hStop then more && h' == h + g.hStep && v' == g.vStart
         else !more
  }

  /** One step of the walk. */
  lemma SuccessorRest(g: Grid, h: int, v: int, ut: bool, more: bool, h': int, v': int, ut': bool)
    requires Steps(g) && Successor(g, h, v, ut, more, h', v', ut')
    ensures Rest(g, h, v, ut) == [Point(h, v, ut)] + if more then Rest(g, h', v', ut') else []
  {
  }

  // ---------------------------------------------------------------- how many points

  /** How many values an axis has: it goes on as long as the last one is below the stop. */
  function Count(start: int, stop: int, step: int): nat
    requires step > 0
    decreases stop - start
  {
    if start < stop then 1 + Count(start + step, stop, step) else 1
  }

  /** The last value of an axis. */
  function Last(start: int, stop: int, step: int): int
    requires step > 0
    decreases stop - start
  {
    if start < stop then Last(start + step, stop, step) else start
  }

  /** The last value is the first one that reaches the stop: it lies beyond the stop when the step does not divide
      the range. */
  lemma {:induction false} LastValue(start: int, stop: int, step: int)
    requires step > 0
    ensures Last(start, stop, step) == start + (Count(start, stop, step) - 1) * step
    ensures if start < stop then stop <= Last(start, stop, step) < stop + step else Last(start, stop, step) == start
    decreases stop - start
  {
    if start < stop {
      var n := Count(start + step, stop, step);
      LastValue(start + step, stop, step);
      assert start + step + (n - 1) * step == start + n * step;
    }
  }

  function PolarityCount(dfe: bool): nat { if dfe then 2 else 1 }

  lemma {:induction false} ColumnLength(g: Grid, h: int, v: int)
    requires Steps(g)
    ensures |Column(g, h, v, false)| == Count(v, g.vStop, g.vStep) * PolarityCount(g.dfe)
    decreases g.vStop - v
  {
    if v < g.vStop {
      ColumnLength(g, h, v + g.vStep);
    }
  }

  lemma {:induction false} RestLength(g: Grid, h: int, c: nat)
    requires Steps(g) && c == Count(g.vStart, g.vStop, g.vStep) * PolarityCount(g.dfe)
    ensures |Rest(g, h, g.vStart, false)| == Count(h, g.hStop, g.hStep) * c
    decreases g.hStop - h
  {
    ColumnLength(g, h, g.vStart);
    if h < g.hStop {
      RestLength(g, h + g.hStep, c);
      var n := Count(h + g.hStep, g.hStop, g.hStep);
      assert (1 + n) * c == c + n * c;
    }
  }

  /** A scan has nh * nv points, or twice as many. */
  lemma AllLength(g: Grid)
    requires Steps(g)
    ensures |All(g)| == Count(g.hStart, g.hStop, g.hStep) * (Count(g.vStart, g.vStop, g.vStep) * PolarityCount(g.dfe))
  {
    RestLength(g, g.hStart, Count(g.vStart, g.vStop, g.vStep) * PolarityCount(g.dfe));
  }

  // ---------------------------------------------------------------- which points

  ghost predicate OnAxis(x: int, start: int, stop: int, step: int)
    requires step > 0
    decreases stop - start
  {
    x == start || (start < stop && OnAxis(x, start + step, stop, step))
  }

  /** The values of an axis, without walking it. */
  lemma {:induction false} OnAxisIff(x: int, start: int, stop: int, step: int, k: int)
    requires step > 0 && x == start + k * step
    ensures OnAxis(x, start, stop, step) <==> k >= 0 && (k == 0 || x - step < stop)
    decreases stop - start
  {
    if start < stop {
      assert start + step + (k - 1) * step == start + k * step;
      OnAxisIff(x, start + step, stop, step, k - 1);
      if k < 0 {
        MulNegative(k, step);
      } else if k >= 2 {
        MulAtLeastTwo(k, step);
      }
    } else {
      if k < 0 {
        MulNegative(k, step);
      } else if k > 0 {
        MulPositive(k, step);
      }
    }
  }

  lemma MulNegative(k: int, m: int)
    requires k < 0 && m > 0
    ensures k * m < 0
  {
  }

  lemma MulPositive(k: int, m: int)
    requires k > 0 && m > 0
    ensures k * m >= m
  {
  }

  lemma MulAtLeastTwo(k: int, m: int)
    requires k >= 2 && m > 0
    ensures k * m >= 2 * m
  {
  }

  lemma {:induction false} OnAxisIsStepped(x: int, start: int, stop: int, step: int) returns (k: nat)
    requires step > 0 && OnAxis(x, start, stop, step)
    ensures x == start + k * step
    decreases stop - start
  {
    if x == start {
      k := 0;
    } else {
      var j := OnAxisIsStepped(x, start + step, stop, step);
      k := j + 1;
      assert (j + 1) * step == j * step + step;
    }
  }

  lemma {:induction false} AxisEnds(start: int, stop: int, step: int)
    requires step > 0
    ensures OnAxis(start, start, stop, step) && OnAxis(Last(start, stop, step), start, stop, step)
    decreases stop - start
  {
    if start < stop {
      AxisEnds(start + step, stop, step);
    }
  }

  lemma {:induction false} AxisBounds(x: int, start: int, stop: int, step: int)
    requires step > 0 && OnAxis(x, start, stop, step)
    ensures start <= x <= Last(start, stop, step)
    decreases stop - start
  {
    AxisGrows(start, stop, step);
    if x != start {
      AxisBounds(x, start + step, stop, step);
    }
  }

  lemma {:induction false} AxisGrows(start: int, stop: int, step: int)
    requires step > 0
    ensures start <= Last(start, stop, step)
    decreases stop - start
  {
    if start < stop {
      AxisGrows(start + step, stop, step);
    }
  }

  lemma {:induction false} InColumn(g: Grid, h: int, v: int, p: Point)
    requires Steps(g)
    ensures p in Column(g, h, v, false) <==> p.h == h && OnAxis(p.v, v, g.vStop, g.vStep) && (p.ut ==> g.dfe)
    decreases g.vStop - v
  {
    if v < g.vStop {
      InColumn(g, h, v + g.vStep, p);
    }
  }

  lemma SplitOf(p: Point, s: seq<Point>, a: seq<Point>, b: seq<Point>)
    requires s == a + b
    ensures p in s <==> p in a || p in b
  {
  }

  /** The points of a column, and those of the columns after it. */
  lemma RestSplit(g: Grid, h: int, p: Point)
    requires Steps(g)
    ensures p in Rest(g, h, g.vStart, false) <==>
            p in Column(g, h, g.vStart, false) || (h < g.hStop && p in Rest(g, h + g.hStep, g.vStart, false))
  {
    if h < g.hStop {
      SplitOf(p, Rest(g, h, g.vStart, false), Column(g, h, g.vStart, false), Rest(g, h + g.hStep, g.vStart, false));
    }
  }

  ghost predicate Visited(g: Grid, h: int, p: Point)
    requires Steps(g)
  {
    p in Rest(g, h, g.vStart, false)
  }

  lemma VisitedIff(g: Grid, h: int, p: Point, inColumn: bool)
    requires Steps(g) && inColumn == (OnAxis(p.v, g.vStart, g.vStop, g.vStep) && (p.ut ==> g.dfe))
    ensures Visited(g, h, p) <==> (p.h == h && inColumn) || (h < g.hStop && Visited(g, h + g.hStep, p))
  {
    InColumn(g, h, g.vStart, p);
    RestSplit(g, h, p);
  }

  lemma {:induction false} InRest(g: Grid, h: int, p: Point, inColumn: bool)
    requires Steps(g) && inColumn == (OnAxis(p.v, g.vStart, g.vStop, g.vStep) && (p.ut ==> g.dfe))
    ensures Visited(g, h, p) <==> OnAxis(p.h, h, g.hStop, g.hStep) && inColumn
    decreases g.hStop - h
  {
    VisitedIff(g, h, p, inColumn);
    if h < g.hStop {
      InRest(g, h + g.hStep, p, inColumn);
    }
  }

  /** Every combination of a horizontal offset, a vertical offset and a polarity is a point of the scan. */
  lemma InAll(g: Grid, p: Point)
    requires Steps(g)
    ensures p in All(g) <==>
            && OnAxis(p.h, g.hStart, g.hStop, g.hStep) && OnAxis(p.v, g.vStart, g.vStop, g.vStep) && (p.ut ==> g.dfe)
  {
    InRest(g, g.hStart, p, OnAxis(p.v, g.vStart, g.vStop, g.vStep) && (p.ut ==> g.dfe));
  }

  // ---------------------------------------------------------------- in which order

  /** Lexicographic order. */
  ghost predicate Before(p: Point, q: Point) {
    p.h < q.h || (p.h == q.h && (p.v < q.v || (p.v == q.v && !p.ut && q.ut)))
  }

  ghost predicate Sorted(s: seq<Point>) { forall i, j | 0 <= i < j < |s| :: Before(s[i], s[j]) }

  ghost predicate AllBefore(a: seq<Point>, b: seq<Point>) { forall p, q | p in a && q in b :: Before(p, q) }

  lemma SortedConcat(a: seq<Point>, b: seq<Point>)
    requires Sorted(a) && Sorted(b) && AllBefore(a, b)
    ensures Sorted(a + b)
  {
    var s := a + b;
    forall i, j | 0 <= i < j < |s|
      ensures Before(s[i], s[j])
    {
      if i < |a| <= j {
        assert s[i] in a && s[j] in b;
      }
    }
  }

  /** Everything in a column is in it, and from v upwards. */
  lemma {:induction false} ColumnFrom(g: Grid, h: int, v: int, ut: bool, p: Point)
    requires Steps(g) && p in Column(g, h, v, ut)
    ensures p.h == h && p.v >= v
    decreases g.vStop - v
  {
    if p !in Polarities(h, v, ut, g.dfe) {
      ColumnFrom(g, h, v + g.vStep, false, p);
    }
  }

  lemma {:induction false} RestFrom(g: Grid, h: int, v: int, ut: bool, p: Point)
    requires Steps(g) && p in Rest(g, h, v, ut)
    ensures p.h >= h
    decreases g.hStop - h
  {
    if p in Column(g, h, v, ut) {
      ColumnFrom(g, h, v, ut, p);
    } else {
      RestFrom(g, h + g.hStep, g.vStart, false, p);
    }
  }

  lemma {:induction false} ColumnSorted(g: Grid, h: int, v: int, ut: bool)
    requires Steps(g)
    ensures Sorted(Column(g, h, v, ut))
    decreases g.vStop - v
  {
    if v < g.vStop {
      ColumnSorted(g, h, v + g.vStep, false);
      var a, b := Polarities(h, v, ut, g.dfe), Column(g, h, v + g.vStep, false);
      forall p, q | p in a && q in b
        ensures Before(p, q)
      {
        ColumnFrom(g, h, v + g.vStep, false, q);
      }
      SortedConcat(a, b);
    }
  }

  lemma ColumnBeforeRest(g: Grid, h: int, v: int, ut: bool)
    requires Steps(g)
    ensures AllBefore(Column(g, h, v, ut), Rest(g, h + g.hStep, g.vStart, false))
  {
    forall p, q | p in Column(g, h, v, ut) && q in Rest(g, h + g.hStep, g.vStart, false)
      ensures Before(p, q)
    {
      ColumnFrom(g, h, v, ut, p);
      RestFrom(g, h + g.hStep, g.vStart, false, q);
    }
  }

  lemma {:induction false} RestSorted(g: Grid, h: int, v: int, ut: bool)
    requires Steps(g)
    ensures Sorted(Rest(g, h, v, ut))
    decreases g.hStop - h
  {
    ColumnSorted(g, h, v, ut);
    if h < g.hStop {
      RestSorted(g, h + g.hStep, g.vStart, false);
      ColumnBeforeRest(g, h, v, ut);
      SortedConcat(Column(g, h, v, ut), Rest(g, h + g.hStep, g.vStart, false));
    }
  }

  /** The walk visits its points in lexicographic order, so none of them twice. */
  lemma AllSorted(g: Grid)
    requires Steps(g)
    ensures Sorted(All(g)) && forall i, j | 0 <= i < j < |All(g)| :: All(g)[i] != All(g)[j]
  {
    RestSorted(g, g.hStart, g.vStart, false);
    var s := All(g);
    forall i, j | 0 <= i < j < |s|
      ensures s[i] != s[j]
    {
      assert Before(s[i], s[j]);
    }
  }
}
