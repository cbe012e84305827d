/** Numeric column operations that the dashboards and the ETL scripts apply to a
    single pandas column: sums, the 12-period rolling windows with min_periods=1,
    and `diff()` followed by `fillna(0)`. Values are exact reals. */
module Series {

  /** Sum of a column, accumulated from the left. */
  function Sum(s: seq<real>): real
  {
    if s == [] then 0.0 else Sum(s[..|s| - 1]) + s[|s| - 1]
  }

  lemma {:induction false} SumConcat(a: seq<real>, b: seq<real>)
    ensures Sum(a + b) == Sum(a) + Sum(b)
    decreases |b|
  {
    if b == [] {
      assert a + b == a;
    } else {
      assert (a + b)[..|a + b| - 1] == a + b[..|b| - 1];
      SumConcat(a, b[..|b| - 1]);
    }
  }

  /** A constant factor comes out of the sum. */
  lemma {:induction false} SumScale(s: seq<real>, t: seq<real>, a: real)
    requires |t| == |s| && forall i :: 0 <= i < |s| ==> t[i] == a * s[i]
    ensures Sum(t) == a * Sum(s)
    decreases |s|
  {
    if s != [] {
      var n := |s|;
      SumScale(s[..n - 1], t[..n - 1], a);
      assert a * (Sum(s[..n - 1]) + s[n - 1]) == a * Sum(s[..n - 1]) + a * s[n - 1];
    }
  }

  lemma SumSingleton(x: real)
    ensures Sum([x]) == x
  {
    assert [x][..0] == [];
  }

  /** The window length used by every rolling column of the dashboard. */
  const Window: nat := 12

  /** First index of the window that ends at i (the window shrinks at the start). */
  function WindowStart(i: nat): (k: nat)
    ensures k <= i && i - k < Window
    ensures i + 1 >= Window ==> i + 1 - k == Window
  {
    if i + 1 >= Window then i + 1 - Window else 0
  }

  /** `rolling(window=12, min_periods=1).sum()`: output i sums inputs
      WindowStart(i)..i. */
  function RollingSum(xs: seq<real>): (r: seq<real>)
    ensures |r| == |xs|
  {
    seq(|xs|, i requires 0 <= i < |xs| => Sum(xs[WindowStart(i)..i + 1]))
  }

  /** `rolling(window=12, min_periods=1).mean()`: output i is the mean of the
      (at most 12, at least 1) inputs of its window. */
  function RollingMean(xs: seq<real>): (r: seq<real>)
    ensures |r| == |xs|
  {
    seq(|xs|, i requires 0 <= i < |xs| =>
      Sum(xs[WindowStart(i)..i + 1]) / ((i + 1 - WindowStart(i)) as real))
  }

  /** Prefix sums, the independent reference used to describe the windows. */
  function Prefix(xs: seq<real>, n: nat): real
    requires n <= |xs|
  {
    Sum(xs[..n])
  }

  lemma SliceSum(xs: seq<real>, k: nat, n: nat)
    requires k <= n <= |xs|
    ensures Sum(xs[k..n]) == Prefix(xs, n) - Prefix(xs, k)
  {
    assert xs[..n] == xs[..k] + xs[k..n];
    SumConcat(xs[..k], xs[k..n]);
  }

  /** Every rolling sum is a difference of two prefix sums. */
  lemma RollingSumByPrefix(xs: seq<real>, i: nat)
    requires i < |xs|
    ensures RollingSum(xs)[i] == Prefix(xs, i + 1) - Prefix(xs, WindowStart(i))
  {
    SliceSum(xs, WindowStart(i), i + 1);
  }

  /** The sliding recurrence: each rolling sum is the previous one plus the new
      input, minus the input that falls out of the 12-period window. */
  lemma RollingSumStep(xs: seq<real>, i: nat)
    requires 0 < i < |xs|
    ensures RollingSum(xs)[i]
            == RollingSum(xs)[i - 1] + xs[i] - (if i >= Window then xs[i - Window] else 0.0)
  {
    RollingSumByPrefix(xs, i);
    RollingSumByPrefix(xs, i - 1);
    assert xs[..i + 1] == xs[..i] + [xs[i]];
    SumConcat(xs[..i], [xs[i]]);
    SumSingleton(xs[i]);
    if i >= Window {
      var k := i - Window;
      assert WindowStart(i) == k + 1 && WindowStart(i - 1) == k;
      assert xs[..k + 1] == xs[..k] + [xs[k]];
      SumConcat(xs[..k], [xs[k]]);
      SumSingleton(xs[k]);
    }
  }

  /** min_periods=1: the first rolling value is the first input itself, for both
      the sum and the mean. */
  lemma RollingFirst(xs: seq<real>)
    requires |xs| > 0
    ensures RollingSum(xs)[0] == xs[0]
    ensures RollingMean(xs)[0] == xs[0]
  {
    assert xs[WindowStart(0)..1] == [xs[0]];
    SumSingleton(xs[0]);
  }

  /** Once 12 inputs are available, the rolling mean is the plain mean of the
      last 12 of them; in particular output 11 is the mean of inputs 0..11. */
  lemma RollingMeanFull(xs: seq<real>, i: nat)
    requires Window - 1 <= i < |xs|
    ensures RollingMean(xs)[i] == Sum(xs[i + 1 - Window..i + 1]) / (Window as real)
    ensures RollingSum(xs)[i] == Sum(xs[i + 1 - Window..i + 1])
  {
  }

  /** The rolling mean times the window size is the rolling sum. */
  lemma RollingMeanTimesCount(xs: seq<real>, i: nat)
    requires i < |xs|
    ensures RollingMean(xs)[i] * ((i + 1 - WindowStart(i)) as real) == RollingSum(xs)[i]
  {
  }

  /** Sum bounds: n values each in [lo, hi] sum to between n*lo and n*hi. */
  lemma {:induction false} SumBounds(s: seq<real>, lo: real, hi: real)
    requires forall k :: 0 <= k < |s| ==> lo <= s[k] <= hi
    ensures (|s| as real) * lo <= Sum(s) <= (|s| as real) * hi
  {
    if s != [] {
      SumBounds(s[..|s| - 1], lo, hi);
    }
  }

  /** The rolling mean stays within the range of the values of its window. */
  lemma RollingMeanBounded(xs: seq<real>, i: nat, lo: real, hi: real)
    requires i < |xs|
    requires forall k :: WindowStart(i) <= k <= i ==> lo <= xs[k] <= hi
    ensures lo <= RollingMean(xs)[i] <= hi
  {
    var w := xs[WindowStart(i)..i + 1];
    var n := (i + 1 - WindowStart(i)) as real;
    SumBounds(w, lo, hi);
    assert n * lo <= Sum(w) <= n * hi;
    assert RollingMean(xs)[i] == Sum(w) / n;
    DivBounds(Sum(w), n, lo, hi);
  }

  lemma DivBounds(s: real, n: real, lo: real, hi: real)
    requires n > 0.0 && n * lo <= s <= n * hi
    ensures lo <= s / n <= hi
  {
    var q := s / n;
    assert q * n == s;
    assert (q - lo) * n >= 0.0;
    assert (hi - q) * n >= 0.0;
  }

  /** `diff()` then `fillna(0)`: the first value is 0 and every later value is
      the change from the previous row. */
  function DiffFillZero(xs: seq<real>): (r: seq<real>)
    ensures |r| == |xs|
  {
    seq(|xs|, i requires 0 <= i < |xs| => if i == 0 then 0.0 else xs[i] - xs[i - 1])
  }

  /** Round trip of the balance column: the first stock plus the accumulated
      differences up to row k gives back the stock of row k. */
  lemma {:induction false} DiffTelescopes(xs: seq<real>, k: nat)
    requires k < |xs|
    ensures xs[0] + Sum(DiffFillZero(xs)[..k + 1]) == xs[k]
  {
    var d := DiffFillZero(xs);
    if k == 0 {
      assert d[..1] == [0.0];
      SumSingleton(0.0);
    } else {
      DiffTelescopes(xs, k - 1);
      assert d[..k + 1] == d[..k] + [d[k]];
      SumConcat(d[..k], [d[k]]);
      SumSingleton(d[k]);
    }
  }

  /** The balance over a whole stretch of rows is the last stock minus the first. */
  lemma DiffTotal(xs: seq<real>)
    requires |xs| > 0
    ensures Sum(DiffFillZero(xs)) == xs[|xs| - 1] - xs[0]
  {
    DiffTelescopes(xs, |xs| - 1);
    assert DiffFillZero(xs)[..|xs|] == DiffFillZero(xs);
  }
}
