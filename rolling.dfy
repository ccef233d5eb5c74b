/** Trailing-window aggregates as pandas computes them with
    `series.rolling(window=w, min_periods=1)`, and the back-fill `bfill()`.
    A series is a sequence of optional reals: `None` is an undefined (NaN)
    value, which pandas skips inside a window. */
module Rolling {
  import opened Wrappers

  /** The window aggregates the feature extractor uses. */
  datatype Aggregate = WindowMean | WindowSum | WindowVar

  /** The defined values of a series, in order. */
  function Present(s: seq<Option<real>>): (p: seq<real>)
    ensures |p| <= |s|
  {
    if s == [] then [] else (if s[0].Some? then [s[0].value] else []) + Present(s[1..])
  }

  function Total(p: seq<real>): real
  {
    if p == [] then 0.0 else p[0] + Total(p[1..])
  }

  function Average(p: seq<real>): real
    requires |p| >= 1
  {
    Total(p) / |p| as real
  }

  function SquaredDeviation(p: seq<real>, m: real): real
  {
    if p == [] then 0.0 else (p[0] - m) * (p[0] - m) + SquaredDeviation(p[1..], m)
  }

  /** Sample variance: delta degrees of freedom 1, pandas' default. */
  function SampleVariance(p: seq<real>): real
    requires |p| >= 2
  {
    SquaredDeviation(p, Average(p)) / (|p| - 1) as real
  }

  /** One window's aggregate. With `min_periods=1` a mean or a sum needs one
      defined value; a sample variance needs two. */
  function Aggregated(a: Aggregate, s: seq<Option<real>>): Option<real>
  {
    var p := Present(s);
    match a
    case WindowMean => if |p| >= 1 then Some(Average(p)) else None
    case WindowSum => if |p| >= 1 then Some(Total(p)) else None
    case WindowVar => if |p| >= 2 then Some(SampleVariance(p)) else None
  }

  /** First row of the window that ends at row `i`: max(0, i - w + 1). */
  function WindowStart(i: nat, w: nat): nat
  {
    if i + 1 >= w then i + 1 - w else 0
  }

  /** Rows max(0, i - w + 1) .. i of the series. */
  function Window(xs: seq<Option<real>>, w: nat, i: nat): (s: seq<Option<real>>)
    requires w >= 1 && i < |xs|
  {
    xs[WindowStart(i, w)..i + 1]
  }

  /** `xs.rolling(window=w, min_periods=1).<aggregate>()`; pandas refuses a
      window below 1, so callers check `w >= 1`. */
  function RollingAggregate(a: Aggregate, xs: seq<Option<real>>, w: nat): (r: seq<Option<real>>)
    requires w >= 1
    ensures |r| == |xs|
  {
    seq(|xs|, i requires 0 <= i < |xs| => Aggregated(a, Window(xs, w, i)))
  }

  /** The first defined value at row `i` or below, if any. */
  function NextDefined(s: seq<Option<real>>, i: nat): Option<real>
    decreases |s| - i
  {
    if i >= |s| then None else if s[i].Some? then s[i] else NextDefined(s, i + 1)
  }

  /** `bfill()`: an undefined value takes the next defined value below it;
      undefined values with nothing defined below them stay undefined. */
  function BackFill(s: seq<Option<real>>): (r: seq<Option<real>>)
    ensures |r| == |s|
  {
    if s == [] then []
    else
      var rest := BackFill(s[1..]);
      [if s[0].Some? || rest == [] then s[0] else rest[0]] + rest
  }

  predicate Complete(xs: seq<Option<real>>)
  {
    forall i :: 0 <= i < |xs| ==> xs[i].Some?
  }

  // ---------------------------------------------------------------------
  // Windows

  /** A window contains at most `w` rows, and exactly min(i + 1, w). */
  lemma WindowLength(xs: seq<Option<real>>, w: nat, i: nat)
    requires w >= 1 && i < |xs|
    ensures |Window(xs, w, i)| == if i + 1 < w then i + 1 else w
  {
  }

  /** Causality: the aggregate at row `i` depends only on rows 0 .. i, so
      changing a later row never changes it. */
  lemma RollingIsCausal(a: Aggregate, xs: seq<Option<real>>, ys: seq<Option<real>>, w: nat, i: nat)
    requires w >= 1 && i < |xs| && i < |ys| && xs[..i + 1] == ys[..i + 1]
    ensures RollingAggregate(a, xs, w)[i] == RollingAggregate(a, ys, w)[i]
  {
    assert Window(xs, w, i) == xs[..i + 1][WindowStart(i, w)..];
    assert Window(ys, w, i) == ys[..i + 1][WindowStart(i, w)..];
  }

  lemma {:induction false} PresentOfComplete(s: seq<Option<real>>)
    requires Complete(s)
    ensures |Present(s)| == |s|
    ensures forall k :: 0 <= k < |s| ==> Present(s)[k] == s[k].value
  {
    if s != [] {
      PresentOfComplete(s[1..]);
    }
  }

  /** On a column without undefined values the rolling mean is defined at
      every row, and is the total of the window divided by its full length
      min(i + 1, w): partial windows at the start average fewer rows. */
  lemma MeanOfCompleteColumn(xs: seq<Option<real>>, w: nat, i: nat)
    requires w >= 1 && i < |xs| && Complete(xs)
    ensures RollingAggregate(WindowMean, xs, w)[i].Some?
    ensures RollingAggregate(WindowMean, xs, w)[i].value
            == Total(Present(Window(xs, w, i))) / (if i + 1 < w then i + 1 else w) as real
  {
    var win := Window(xs, w, i);
    assert Complete(win) by {
      forall k | 0 <= k < |win| ensures win[k].Some? {
        assert win[k] == xs[WindowStart(i, w) + k];
      }
    }
    PresentOfComplete(win);
  }

  lemma {:induction false} TotalBounds(p: seq<real>, lo: real, hi: real)
    requires forall k :: 0 <= k < |p| ==> lo <= p[k] <= hi
    ensures lo * |p| as real <= Total(p) <= hi * |p| as real
  {
    if p != [] {
      TotalBounds(p[1..], lo, hi);
    }
  }

  lemma {:induction false} PresentElements(s: seq<Option<real>>, k: nat)
    requires k < |Present(s)|
    ensures exists j :: 0 <= j < |s| && s[j] == Some(Present(s)[k])
  {
    if s[0].Some? && k == 0 {
      assert s[0] == Some(Present(s)[0]);
    } else {
      var k' := if s[0].Some? then k - 1 else k;
      PresentElements(s[1..], k');
      var j :| 0 <= j < |s[1..]| && s[1..][j] == Some(Present(s[1..])[k']);
      assert s[j + 1] == Some(Present(s)[k]);
    }
  }

  /** The rolling mean stays within any bounds that hold for the defined
      values of its window. */
  lemma MeanWithinBounds(xs: seq<Option<real>>, w: nat, i: nat, lo: real, hi: real)
    requires w >= 1 && i < |xs|
    requires forall j :: WindowStart(i, w) <= j <= i && xs[j].Some? ==> lo <= xs[j].value <= hi
    requires RollingAggregate(WindowMean, xs, w)[i].Some?
    ensures lo <= RollingAggregate(WindowMean, xs, w)[i].value <= hi
  {
    var win := Window(xs, w, i);
    var p := Present(win);
    forall k | 0 <= k < |p| ensures lo <= p[k] <= hi {
      PresentElements(win, k);
      var j :| 0 <= j < |win| && win[j] == Some(p[k]);
      assert xs[WindowStart(i, w) + j] == win[j];
    }
    TotalBounds(p, lo, hi);
    QuotientBounds(Total(p), |p| as real, lo, hi);
  }

  lemma QuotientBounds(t: real, m: real, lo: real, hi: real)
    requires m > 0.0 && lo * m <= t <= hi * m
    ensures lo <= t / m <= hi
  {
    var q := t / m;
    assert q * m == t;
  }

  // ---------------------------------------------------------------------
  // Sample variance

  lemma {:induction false} SquaredDeviationNonNegative(p: seq<real>, m: real)
    ensures SquaredDeviation(p, m) >= 0.0
  {
    if p != [] {
      SquaredDeviationNonNegative(p[1..], m);
      var d := p[0] - m;
      if d < 0.0 {
        assert d * d == (-d) * (-d);
      }
      assert d * d >= 0.0;
    }
  }

  /** Every defined rolling variance is non-negative. */
  lemma VarianceNonNegative(xs: seq<Option<real>>, w: nat, i: nat)
    requires w >= 1 && i < |xs|
    requires RollingAggregate(WindowVar, xs, w)[i].Some?
    ensures RollingAggregate(WindowVar, xs, w)[i].value >= 0.0
  {
    var p := Present(Window(xs, w, i));
    SquaredDeviationNonNegative(p, Average(p));
  }

  /** A window of one row has no sample variance: with `w == 1` every row is
      undefined. */
  lemma VarianceUndefinedForUnitWindow(xs: seq<Option<real>>, i: nat)
    requires i < |xs|
    ensures RollingAggregate(WindowVar, xs, 1)[i] == None
  {
    assert |Window(xs, 1, i)| == 1;
  }

  // ---------------------------------------------------------------------
  // Back-fill

  lemma {:induction false} NextDefinedShift(s: seq<Option<real>>, i: nat)
    requires |s| >= 1
    ensures NextDefined(s, i + 1) == NextDefined(s[1..], i)
    decreases |s| - i
  {
    if i + 1 < |s| && s[i + 1].None? {
      NextDefinedShift(s, i + 1);
    }
  }

  /** `bfill()` sets row `i` to the first defined value at row `i` or below. */
  lemma {:induction false} BackFillIsNextDefined(s: seq<Option<real>>, i: nat)
    requires i < |s|
    ensures BackFill(s)[i] == NextDefined(s, i)
  {
    var rest := BackFill(s[1..]);
    if i == 0 {
      if s[0].None? && rest != [] {
        BackFillIsNextDefined(s[1..], 0);
        NextDefinedShift(s, 0);
      }
    } else {
      BackFillIsNextDefined(s[1..], i - 1);
      NextDefinedShift(s, i - 1);
    }
  }

  /** `bfill()` leaves defined values where they are. */
  lemma BackFillKeepsDefined(s: seq<Option<real>>, i: nat)
    requires i < |s| && s[i].Some?
    ensures BackFill(s)[i] == s[i]
  {
    BackFillIsNextDefined(s, i);
  }

  /** A series with no defined value stays entirely undefined after `bfill()`. */
  lemma BackFillOfUndefined(s: seq<Option<real>>, i: nat)
    requires forall j :: 0 <= j < |s| ==> s[j] == None
    requires i < |s|
    ensures BackFill(s)[i] == None
  {
    BackFillIsNextDefined(s, i);
    NextDefinedOfUndefined(s, i);
  }

  lemma {:induction false} NextDefinedOfUndefined(s: seq<Option<real>>, i: nat)
    requires forall j :: 0 <= j < |s| ==> s[j] == None
    ensures NextDefined(s, i) == None
    decreases |s| - i
  {
    if i < |s| {
      NextDefinedOfUndefined(s, i + 1);
    }
  }

  /** After `bfill()` a cell is undefined only if every cell from it down is. */
  lemma BackFillUndefinedOnlyAtTail(s: seq<Option<real>>, i: nat, j: nat)
    requires i <= j < |s| && s[j].Some?
    ensures BackFill(s)[i].Some?
  {
    BackFillIsNextDefined(s, i);
    NextDefinedFindsLater(s, i, j);
  }

  lemma {:induction false} NextDefinedFindsLater(s: seq<Option<real>>, i: nat, j: nat)
    requires i <= j < |s| && s[j].Some?
    ensures NextDefined(s, i).Some?
    decreases j - i
  {
    if s[i].None? {
      NextDefinedFindsLater(s, i + 1, j);
    }
  }

  /** The rolling sample variance of a column whose first two values are
      defined, for a window of at least two rows: row 0 (one value) is
      undefined and back-filled with row 1's variance, and from row 1 on
      every row is defined and left as computed. */
  lemma BackFilledVariance(xs: seq<Option<real>>, w: nat)
    requires w >= 2 && |xs| >= 2 && xs[0].Some? && xs[1].Some?
    ensures RollingAggregate(WindowVar, xs, w)[0] == None
    ensures RollingAggregate(WindowVar, xs, w)[1] == Some(SampleVariance([xs[0].value, xs[1].value]))
    ensures BackFill(RollingAggregate(WindowVar, xs, w))[0] == BackFill(RollingAggregate(WindowVar, xs, w))[1]
                                                            == RollingAggregate(WindowVar, xs, w)[1]
  {
    var v := RollingAggregate(WindowVar, xs, w);
    assert Window(xs, w, 0) == [xs[0]];
    assert Window(xs, w, 1) == [xs[0], xs[1]];
    assert [xs[0], xs[1]][1..] == [xs[1]];
    assert Present([xs[1]]) == [xs[1].value];
    assert Present([xs[0], xs[1]]) == [xs[0].value, xs[1].value];
    assert v[1] == Aggregated(WindowVar, [xs[0], xs[1]]);
    BackFillKeepsDefined(v, 1);
    BackFillIsNextDefined(v, 0);
    assert NextDefined(v, 0) == NextDefined(v, 1);
  }

  /** From row 1 on, the back-filled rolling variance of a column without
      undefined values (window of at least 2) is the sample variance of rows
      max(0, i - w + 1) .. i: every such window holds two or more values, so
      nothing there is back-filled. */
  lemma BackFilledVarianceOfCompleteColumn(xs: seq<Option<real>>, w: nat, i: nat)
    requires w >= 2 && 1 <= i < |xs| && Complete(xs)
    ensures |Present(Window(xs, w, i))| >= 2
    ensures BackFill(RollingAggregate(WindowVar, xs, w))[i] == Some(SampleVariance(Present(Window(xs, w, i))))
  {
    var s := Window(xs, w, i);
    assert Complete(s) by {
      forall k | 0 <= k < |s| ensures s[k].Some? {
        assert s[k] == xs[WindowStart(i, w) + k];
      }
    }
    PresentOfComplete(s);
    BackFillKeepsDefined(RollingAggregate(WindowVar, xs, w), i);
  }

  // ---------------------------------------------------------------------
  // Sums

  function Abs(x: real): real
  {
    if x < 0.0 then -x else x
  }

  /** Total of the absolute values. */
  function AbsTotal(p: seq<real>): real
  {
    if p == [] then 0.0 else Abs(p[0]) + AbsTotal(p[1..])
  }

  /** Triangle inequality for a window total. */
  lemma {:induction false} TotalWithinAbsTotal(p: seq<real>)
    ensures Abs(Total(p)) <= AbsTotal(p)
  {
    if p != [] {
      TotalWithinAbsTotal(p[1..]);
    }
  }
}
