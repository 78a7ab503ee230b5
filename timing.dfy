/**
 * The timed dispatch loop and its statistics (main.cpp:153-183).
 *
 * Each of the n_runs kernel launches either completes, yielding one measured
 * duration in milliseconds, or fails at the enqueue or at the wait, which
 * aborts the benchmark. The durations are kept in `time_arr` and summed into
 * `total_time`; afterwards the mean and the sum of squared deviations from the
 * mean are computed, and the population variance (that sum divided by n_runs)
 * is what the program takes the square root of.
 */
module Timing {

  /** What one kernel launch yields. */
  datatype RunOutcome =
    | Completed(ms: real)   // launched, waited for, and profiled: its duration
    | EnqueueFailed         // clEnqueueNDRangeKernel reported an error
    | WaitFailed            // clWaitForEvents reported an error

  /** Sum of the samples, accumulated in index order. */
  function Sum(s: seq<real>): real
  {
    if |s| == 0 then 0.0 else Sum(s[..|s| - 1]) + s[|s| - 1]
  }

  /** Arithmetic mean of a non-empty sample sequence. */
  function Mean(s: seq<real>): real
    requires |s| > 0
  {
    Sum(s) / |s| as real
  }

  /** `pow(x, 2)`: a square is never negative. */
  function Square(x: real): (r: real)
    ensures r >= 0.0
  {
    x * x
  }

  /** Sum over the samples of (x - center)^2, accumulated in index order. */
  function SquaredDeviations(s: seq<real>, center: real): real
  {
    if |s| == 0 then 0.0
    else SquaredDeviations(s[..|s| - 1], center) + Square(s[|s| - 1] - center)
  }

  /** Population variance: squared deviations from the mean divided by n, not n - 1. */
  function Variance(s: seq<real>): real
    requires |s| > 0
  {
    SquaredDeviations(s, Mean(s)) / |s| as real
  }

  predicate AllCompleted(outcomes: seq<RunOutcome>)
  {
    forall i :: 0 <= i < |outcomes| ==> outcomes[i].Completed?
  }

  /** The measured durations of a sequence of launches that all completed. */
  function Durations(outcomes: seq<RunOutcome>): (d: seq<real>)
    requires AllCompleted(outcomes)
    ensures |d| == |outcomes|
    ensures forall i :: 0 <= i < |d| ==> d[i] == outcomes[i].ms
  {
    seq(|outcomes|, i requires 0 <= i < |outcomes| => outcomes[i].ms)
  }

  /** A sum of squares is never negative. */
  lemma {:induction false} SquaredDeviationsNonNegative(s: seq<real>, center: real)
    ensures SquaredDeviations(s, center) >= 0.0
  {
    if |s| > 0 {
      SquaredDeviationsNonNegative(s[..|s| - 1], center);
    }
  }

  /** Samples that all equal the center have no squared deviation. */
  lemma {:induction false} SquaredDeviationsOfConstant(s: seq<real>, center: real)
    requires forall i :: 0 <= i < |s| ==> s[i] == center
    ensures SquaredDeviations(s, center) == 0.0
  {
    if |s| > 0 {
      SquaredDeviationsOfConstant(s[..|s| - 1], center);
    }
  }

  /** Samples that all equal c sum to n * c. */
  lemma {:induction false} SumOfConstant(s: seq<real>, c: real)
    requires forall i :: 0 <= i < |s| ==> s[i] == c
    ensures Sum(s) == |s| as real * c
  {
    if |s| > 0 {
      SumOfConstant(s[..|s| - 1], c);
    }
  }

  /** Samples that all lie in [lo, hi] sum to between n * lo and n * hi. */
  lemma {:induction false} SumWithin(s: seq<real>, lo: real, hi: real)
    requires forall i :: 0 <= i < |s| ==> lo <= s[i] <= hi
    ensures |s| as real * lo <= Sum(s) <= |s| as real * hi
  {
    if |s| > 0 {
      SumWithin(s[..|s| - 1], lo, hi);
    }
  }

  /** The mean lies between the smallest and the largest sample. */
  lemma MeanWithin(s: seq<real>, lo: real, hi: real)
    requires |s| > 0
    requires forall i :: 0 <= i < |s| ==> lo <= s[i] <= hi
    ensures lo <= Mean(s) <= hi
  {
    SumWithin(s, lo, hi);
    var n := |s| as real;
    assert Mean(s) * n == Sum(s);
  }

  /** When every sample equals c, so does the mean. */
  lemma MeanOfConstant(s: seq<real>, c: real)
    requires |s| > 0
    requires forall i :: 0 <= i < |s| ==> s[i] == c
    ensures Mean(s) == c
  {
    var n := |s| as real;
    SumOfConstant(s, c);
    assert Sum(s) == n * c;
  }

  /** When every sample is equal, the mean is that sample and the variance is 0. */
  lemma EqualSamplesHaveNoDeviation(s: seq<real>)
    requires |s| > 0
    requires forall i :: 0 <= i < |s| ==> s[i] == s[0]
    ensures Mean(s) == s[0]
    ensures SquaredDeviations(s, Mean(s)) == 0.0 && Variance(s) == 0.0
  {
    MeanOfConstant(s, s[0]);
    SquaredDeviationsOfConstant(s, s[0]);
  }

  /** A single run: the mean is its duration and the deviation is 0. */
  lemma SingleRun(x: real)
    ensures Mean([x]) == x && Variance([x]) == 0.0
  {
    EqualSamplesHaveNoDeviation([x]);
  }

  /**
   * The dispatch loop (main.cpp:156-175): `time_arr` is allocated with one slot
   * per run and filled in run order while `total_time` accumulates. The first
   * failed launch or wait stops the loop (the program then exits with -2).
   */
  method RecordRuns(outcomes: seq<RunOutcome>) returns (ok: bool, timeArr: array<real>, total: real)
    ensures fresh(timeArr) && timeArr.Length == |outcomes|
    ensures ok <==> AllCompleted(outcomes)
    ensures ok ==> timeArr[..] == Durations(outcomes) && total == Sum(timeArr[..])
  {
    timeArr := new real[|outcomes|];
    total := 0.0;
    for i := 0 to |outcomes|
      invariant AllCompleted(outcomes[..i])
      invariant forall j :: 0 <= j < i ==> timeArr[j] == outcomes[j].ms
      invariant total == Sum(timeArr[..i])
    {
      match outcomes[i]
      case EnqueueFailed =>
        return false, timeArr, total;
      case WaitFailed =>
        return false, timeArr, total;
      case Completed(executionTime) =>
        ghost var before := timeArr[..i];
        timeArr[i] := executionTime;
        assert timeArr[..i + 1][..i] == before;
        total := total + executionTime;
    }
    ok := true;
    assert outcomes[..|outcomes|] == outcomes;
    assert timeArr[..|outcomes|] == timeArr[..];
  }

  /**
   * The statistics after the loop (main.cpp:177-183): the mean is `total_time / n_runs`,
   * then the squared deviations of `time_arr` from it are accumulated, and divided by
   * n_runs to give the variance whose square root the program prints.
   */
  method MeanAndDeviation(timeArr: array<real>, total: real) returns (mean: real, sqDev: real, variance: real)
    requires timeArr.Length > 0
    requires total == Sum(timeArr[..])
    ensures mean == Mean(timeArr[..])
    ensures sqDev == SquaredDeviations(timeArr[..], mean) && sqDev >= 0.0
    ensures variance == Variance(timeArr[..]) && variance >= 0.0
  {
    var nRuns := timeArr.Length;
    mean := total / nRuns as real;
    sqDev := 0.0;
    for i := 0 to nRuns
      invariant sqDev == SquaredDeviations(timeArr[..i], mean)
    {
      assert timeArr[..i + 1][..i] == timeArr[..i];
      sqDev := sqDev + Square(timeArr[i] - mean);
    }
    assert timeArr[..nRuns] == timeArr[..];
    SquaredDeviationsNonNegative(timeArr[..], mean);
    variance := sqDev / nRuns as real;
  }
}
