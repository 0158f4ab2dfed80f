/** Bookkeeping of the log-log trapezoidal rule (_trapz_loglog and the array
    branch of integrate_spectrum in gammapy/spectrum/utils.py).

    Each interval between neighbouring grid points is integrated as a local
    power law. That formula uses log10 and pow, so it is a parameter here:
    what is modelled is how the intervals are formed, which intervals are
    forced to zero, and how they add up. */
module TrapzLogLog {
  import opened Outcomes

  /** The power-law integral of one interval, given its end points
      `(x1, x2, y1, y2)`. */
  type IntervalFormula = (real, real, real, real) -> real

  /** An interval whose contribution is forced to zero: either end of the
      spectrum is zero, or the two grid points coincide. */
  predicate Degenerate(x1: real, x2: real, y1: real, y2: real) {
    y1 == 0.0 || y2 == 0.0 || x1 == x2
  }

  function IntervalIntegral(formula: IntervalFormula, x1: real, x2: real, y1: real, y2: real): real {
    if Degenerate(x1, x2, y1, y2) then 0.0 else formula(x1, x2, y1, y2)
  }

  /** Number of intervals of a grid of n points (numpy's `[1:]` and `[:-1]`
      slices of an empty grid are both empty). */
  function IntervalCount(n: nat): nat {
    if n == 0 then 0 else n - 1
  }

  /** The per-interval integrals of `y` over the grid `x`. */
  function Intervals(formula: IntervalFormula, y: seq<real>, x: seq<real>): (t: seq<real>)
    requires |y| == |x|
    ensures |t| == IntervalCount(|x|)
    ensures forall i :: 0 <= i < |t| ==>
              Degenerate(x[i], x[i + 1], y[i], y[i + 1]) ==> t[i] == 0.0
    ensures forall i :: 0 <= i < |t| ==>
              !Degenerate(x[i], x[i + 1], y[i], y[i + 1]) ==> t[i] == formula(x[i], x[i + 1], y[i], y[i + 1])
  {
    seq(IntervalCount(|x|), i requires 0 <= i < IntervalCount(|x|) =>
          IntervalIntegral(formula, x[i], x[i + 1], y[i], y[i + 1]))
  }

  lemma IntervalAt(formula: IntervalFormula, y: seq<real>, x: seq<real>, i: nat)
    requires |y| == |x| && i + 1 < |x|
    ensures Intervals(formula, y, x)[i] == IntervalIntegral(formula, x[i], x[i + 1], y[i], y[i + 1])
  {
  }

  function Sum(s: seq<real>): real {
    if |s| == 0 then 0.0 else s[0] + Sum(s[1..])
  }

  lemma {:induction false} SumAppend(a: seq<real>, b: seq<real>)
    ensures Sum(a + b) == Sum(a) + Sum(b)
  {
    if |a| == 0 {
      assert a + b == b;
    } else {
      assert (a + b)[1..] == a[1..] + b;
      SumAppend(a[1..], b);
    }
  }

  /** np.add.reduce over the intervals: their sum. numpy adds pairwise, which
      over the reals gives the same value as this running sum. */
  method AddReduce(s: seq<real>) returns (total: real)
    ensures total == Sum(s)
  {
    total := 0.0;
    var i := 0;
    while i < |s|
      invariant 0 <= i <= |s|
      invariant total == Sum(s[..i])
    {
      SumAppend(s[..i], [s[i]]);
      assert s[..i + 1] == s[..i] + [s[i]];
      total := total + s[i];
      i := i + 1;
    }
    assert s[..i] == s;
  }

  /** What _trapz_loglog returns: the per-interval values when `intervals`
      is set, their sum otherwise. */
  datatype Integral = PerInterval(values: seq<real>) | Total(value: real)

  function TrapzLogLog(formula: IntervalFormula, y: seq<real>, x: seq<real>, intervals: bool): (r: Integral)
    requires |y| == |x|
    ensures r.PerInterval? <==> intervals
    ensures r.PerInterval? ==> |r.values| == IntervalCount(|x|)
    ensures r.PerInterval? ==> forall i :: 0 <= i < |r.values| ==>
              Degenerate(x[i], x[i + 1], y[i], y[i + 1]) ==> r.values[i] == 0.0
  {
    var t := Intervals(formula, y, x);
    if intervals then PerInterval(t) else Total(Sum(t))
  }

  /** The two passes of _trapz_loglog: the power-law value of every interval,
      then the degenerate intervals overwritten with zero, then either the
      array itself or its sum. */
  method EvaluateTrapzLogLog(formula: IntervalFormula, y: seq<real>, x: seq<real>, intervals: bool)
    returns (r: Integral)
    requires |y| == |x|
    ensures r == TrapzLogLog(formula, y, x, intervals)
  {
    var n := IntervalCount(|x|);
    var trapzs: seq<real> := [];
    var i := 0;
    while i < n
      invariant 0 <= i <= n && |trapzs| == i
      invariant forall k :: 0 <= k < i ==> trapzs[k] == formula(x[k], x[k + 1], y[k], y[k + 1])
    {
      trapzs := trapzs + [formula(x[i], x[i + 1], y[i], y[i + 1])];
      i := i + 1;
    }
    i := 0;
    while i < n
      invariant 0 <= i <= n && |trapzs| == n
      invariant forall k :: 0 <= k < i ==> trapzs[k] == IntervalIntegral(formula, x[k], x[k + 1], y[k], y[k + 1])
      invariant forall k :: i <= k < n ==> trapzs[k] == formula(x[k], x[k + 1], y[k], y[k + 1])
    {
      if Degenerate(x[i], x[i + 1], y[i], y[i + 1]) {
        trapzs := trapzs[i := 0.0];
      }
      i := i + 1;
    }
    assert trapzs == Intervals(formula, y, x);
    if intervals {
      return PerInterval(trapzs);
    }
    var total := AddReduce(trapzs);
    return Total(total);
  }

  /** Splitting the grid at point k splits the integral: the rule is
      additive over adjacent sub-grids that share their boundary point. */
  lemma TrapzSplit(formula: IntervalFormula, y: seq<real>, x: seq<real>, k: nat)
    requires |y| == |x| && k < |x|
    ensures TrapzLogLog(formula, y, x, false).value
            == TrapzLogLog(formula, y[..k + 1], x[..k + 1], false).value
               + TrapzLogLog(formula, y[k..], x[k..], false).value
  {
    var t := Intervals(formula, y, x);
    var left := Intervals(formula, y[..k + 1], x[..k + 1]);
    var right := Intervals(formula, y[k..], x[k..]);
    forall i | 0 <= i < |t|
      ensures t[i] == (left + right)[i]
    {
      IntervalAt(formula, y, x, i);
      if i < k {
        IntervalAt(formula, y[..k + 1], x[..k + 1], i);
      } else {
        IntervalAt(formula, y[k..], x[k..], i - k);
      }
    }
    assert t == left + right;
    SumAppend(left, right);
  }

  /** A spectrum that is zero on the whole grid integrates to zero, whatever
      the interval formula would give. */
  lemma {:induction false} TrapzZeroSpectrum(formula: IntervalFormula, y: seq<real>, x: seq<real>)
    requires |y| == |x|
    requires forall i :: 0 <= i < |y| ==> y[i] == 0.0
    ensures TrapzLogLog(formula, y, x, false) == Total(0.0)
  {
    var t := Intervals(formula, y, x);
    assert forall i :: 0 <= i < |t| ==> t[i] == 0.0;
    SumOfZeros(t);
  }

  lemma {:induction false} SumOfZeros(s: seq<real>)
    requires forall i :: 0 <= i < |s| ==> s[i] == 0.0
    ensures Sum(s) == 0.0
  {
    if |s| > 0 {
      SumOfZeros(s[1..]);
    }
  }

  // ---------------------------------------------------------------------------
  // integrate_spectrum on arrays of bin bounds

  /** The grid of the array branch: all lower bounds followed by the last
      upper bound; `xmax[-1]` of an empty array raises IndexError. */
  function ArrayGrid(xmin: seq<real>, xmax: seq<real>): (r: Result<seq<real>>)
    ensures r.Err? <==> |xmax| == 0
    ensures r.Err? ==> r.error == IndexError
    ensures r.Ok? ==> |r.value| == |xmin| + 1 && r.value[..|xmin|] == xmin && r.value[|xmin|] == xmax[|xmax| - 1]
  {
    if |xmax| == 0 then Err(IndexError) else Ok(xmin + [xmax[|xmax| - 1]])
  }

  /** The spectrum evaluated at every grid point. */
  function Evaluate(spectrum: real -> real, x: seq<real>): (y: seq<real>)
    ensures |y| == |x| && forall i :: 0 <= i < |x| ==> y[i] == spectrum(x[i])
  {
    seq(|x|, i requires 0 <= i < |x| => spectrum(x[i]))
  }

  /** Array mode fails exactly when there is no upper bound; otherwise the
      flag selects per-interval output, one interval per lower bound. */
  function IntegrateSpectrum(formula: IntervalFormula, spectrum: real -> real, xmin: seq<real>, xmax: seq<real>,
                             intervals: bool): (r: Result<Integral>)
    ensures r.Err? <==> |xmax| == 0
    ensures r.Err? ==> r.error == IndexError
    ensures r.Ok? ==> (intervals <==> r.value.PerInterval?)
    ensures r.Ok? && intervals ==> |r.value.values| == |xmin|
  {
    match ArrayGrid(xmin, xmax)
    case Err(e) => Err(e)
    case Ok(x) => Ok(TrapzLogLog(formula, Evaluate(spectrum, x), x, intervals))
  }

  /** For contiguous bins (each upper bound is the next lower bound) the
      i-th interval is integrated over exactly the i-th bin `[xmin[i], xmax[i]]`. */
  lemma ContiguousBinsIntegrateEachBin(formula: IntervalFormula, spectrum: real -> real, xmin: seq<real>,
                                       xmax: seq<real>)
    requires |xmin| == |xmax| > 0
    requires forall i, j :: 0 <= i && j == i + 1 < |xmin| ==> xmax[i] == xmin[j]
    ensures var r := IntegrateSpectrum(formula, spectrum, xmin, xmax, true);
      && r.Ok? && |r.value.values| == |xmin|
      && forall i :: 0 <= i < |xmin| ==>
           r.value.values[i]
           == IntervalIntegral(formula, xmin[i], xmax[i], spectrum(xmin[i]), spectrum(xmax[i]))
  {
    var x := xmin + [xmax[|xmax| - 1]];
    var y := Evaluate(spectrum, x);
    var t := Intervals(formula, y, x);
    forall i | 0 <= i < |xmin|
      ensures x[i] == xmin[i] && x[i + 1] == xmax[i]
    {
      if i + 1 < |xmin| {
        assert xmax[i] == xmin[i + 1];
      }
    }
    forall i | 0 <= i < |xmin|
      ensures t[i] == IntervalIntegral(formula, xmin[i], xmax[i], spectrum(xmin[i]), spectrum(xmax[i]))
    {
      assert y[i] == spectrum(x[i]) && y[i + 1] == spectrum(x[i + 1]);
    }
  }

  /** Only the last upper bound enters the grid: two arrays of upper bounds
      that end on the same value give the same result, whatever their inner
      values. */
  lemma ArrayModeReadsLastUpperBoundOnly(formula: IntervalFormula, spectrum: real -> real, xmin: seq<real>,
                                         xmax: seq<real>, xmax': seq<real>, intervals: bool)
    requires |xmax| > 0 && |xmax'| > 0 && xmax[|xmax| - 1] == xmax'[|xmax'| - 1]
    ensures IntegrateSpectrum(formula, spectrum, xmin, xmax, intervals)
            == IntegrateSpectrum(formula, spectrum, xmin, xmax', intervals)
  {
  }
}
