/**
 * The benchmark driver `main` (main.cpp:42-227): check the arguments, time n_runs launches
 * of the kernel, read the device's product back and compare it, cell by cell, with the
 * host's reference product. The device is not modelled; what it does reaches the driver as
 * parameters: the outcome of every launch and the matrix read back (or the failure of that read).
 */
module Benchmark {
  import opened Common
  import Arguments
  import ReferenceMultiply
  import Timing
  import Validation

  /**
   * What `main` computes along the way. The mean is printed (main.cpp:185); the population
   * variance is the value whose square root is printed as the standard deviation
   * (main.cpp:183-186); the verdict, once the product has been read back, is the message
   * of main.cpp:205-210. The dispatch sizes are computed (main.cpp:154-155) but not printed.
   */
  datatype Report = Report(
    sizes: Arguments.Dispatch,
    mean: real,
    variance: real,
    verdict: Option<Validation.Verdict>)

  /**
   * What the environment supplies once the arguments are accepted: matrices A (m x k) and
   * B (k x n), one launch outcome per run, and an m x n matrix if the read-back succeeds.
   */
  predicate InputsFit(cfg: Arguments.Config, a: seq<real>, b: seq<real>,
                      outcomes: seq<Timing.RunOutcome>, readBack: Option<seq<real>>)
  {
    |a| == cfg.m * cfg.k && |b| == cfg.k * cfg.n && |outcomes| == cfg.nRuns &&
    (readBack.Some? ==> |readBack.value| == cfg.m * cfg.n)
  }

  /** The array holding exactly the elements of `s`. */
  method ToArray(s: seq<real>) returns (arr: array<real>)
    ensures fresh(arr) && arr[..] == s
  {
    arr := new real[|s|](i requires 0 <= i < |s| => s[i]);
  }

  /**
   * One execution of the benchmark, with the argument check that also rejects a
   * non-positive n_works (see `Arguments.CheckConfig`). The exit codes are those of
   * `main`: -1 for rejected arguments, -2 when a launch or the wait for it fails, -3 when
   * the result cannot be read back, and 0 otherwise.
   */
  method Run(args: seq<int>, a: seq<real>, b: seq<real>,
             outcomes: seq<Timing.RunOutcome>, readBack: Option<seq<real>>)
    returns (exitCode: int, report: Option<Report>)
    requires Arguments.CheckConfig(args).Success? ==>
               InputsFit(Arguments.CheckConfig(args).value, a, b, outcomes, readBack)
    ensures exitCode == InvalidArgumentsExit <==> Arguments.CheckConfig(args).Failure?
    ensures exitCode == KernelFailureExit <==>
              Arguments.CheckConfig(args).Success? && !Timing.AllCompleted(outcomes)
    ensures exitCode == ReadBackFailureExit <==>
              Arguments.CheckConfig(args).Success? && Timing.AllCompleted(outcomes) && readBack.None?
    ensures exitCode == SuccessExit <==>
              Arguments.CheckConfig(args).Success? && Timing.AllCompleted(outcomes) && readBack.Some?
    ensures report.Some? <==> exitCode == ReadBackFailureExit || exitCode == SuccessExit
    ensures report.Some? ==>
              var cfg := Arguments.CheckConfig(args).value;
              var d := Timing.Durations(outcomes);
              report.value.sizes == Arguments.DispatchSizes(cfg) &&
              report.value.mean == Timing.Mean(d) &&
              report.value.variance == Timing.Variance(d) && report.value.variance >= 0.0 &&
              (report.value.verdict.Some? <==> readBack.Some?)
    ensures report.Some? && readBack.Some? ==>
              var cfg := Arguments.CheckConfig(args).value;
              var expected := ReferenceMultiply.Product(a, b, cfg.m, cfg.n, cfg.k);
              report.value.verdict ==
                Some(Validation.ReportVerdict(Validation.Mismatches(readBack.value, expected))) &&
              (report.value.verdict.value.Correct? <==>
                 forall p :: 0 <= p < cfg.m * cfg.n ==> !Validation.Exceeds(readBack.value[p], expected[p]))
  {
    var checked := Arguments.CheckConfig(args);
    if checked.Failure? {
      return checked.exitCode, None;
    }
    var cfg := checked.value;
    var sizes := Arguments.DispatchSizes(cfg);

    var ok, timeArr, total := Timing.RecordRuns(outcomes);
    if !ok {
      return KernelFailureExit, None;
    }
    var mean, sqDev, variance := Timing.MeanAndDeviation(timeArr, total);

    if readBack.None? {
      return ReadBackFailureExit, Some(Report(sizes, mean, variance, None));
    }
    var A := ToArray(a);
    var B := ToArray(b);
    var C := ToArray(readBack.value);
    var Cref := new real[cfg.m * cfg.n];
    ReferenceMultiply.MultiplyMatrices(A, B, Cref, cfg.m, cfg.n, cfg.k);
    var errors := Validation.CountErrors(C, Cref, cfg.m, cfg.n);
    var verdict := Validation.ReportVerdict(errors);
    Validation.VerdictCorrectIff(C[..], Cref[..]);
    return SuccessExit, Some(Report(sizes, mean, variance, Some(verdict)));
  }
}
