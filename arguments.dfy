/**
 * The argument check at the top of `main` (main.cpp:44-58) and the dispatch
 * geometry computed from the arguments (main.cpp:153-155).
 *
 * The five positional arguments `m n k n_runs n_works` are modelled after
 * `atoi`: `args` holds argv[1..] as integers, so argc is |args| + 1.
 */
module Arguments {
  import opened Common

  /** The program name plus five positional arguments. */
  const ExpectedArgc: int := 6

  /** The first local (work-group) size, and the numerator of the second. */
  const LocalRows: int := 64

  /** The benchmark configuration: matrix sizes, repetitions and the columns per work-item. */
  datatype Config = Config(m: int, n: int, k: int, nRuns: int, nWorks: int)

  /** The two-dimensional global and local work sizes of one kernel launch. */
  datatype Dispatch = Dispatch(global: (int, int), local: (int, int))

  /**
   * `main`'s argument check as written: a wrong argument count, or any of m, n, k,
   * n_runs not positive, ends the program with -1; n_works is taken as it is.
   */
  function CheckArguments(args: seq<int>): (r: Result<Config>)
    ensures r.Failure? ==> r.exitCode == InvalidArgumentsExit
    ensures r.Success? <==>
              |args| + 1 == ExpectedArgc && args[0] > 0 && args[1] > 0 && args[2] > 0 && args[3] > 0
    ensures r.Success? ==> r.value == Config(args[0], args[1], args[2], args[3], args[4])
  {
    if |args| + 1 != ExpectedArgc then
      Failure(InvalidArgumentsExit)
    else
      var cfg := Config(args[0], args[1], args[2], args[3], args[4]);
      if cfg.m <= 0 || cfg.n <= 0 || cfg.k <= 0 || cfg.nRuns <= 0 then
        Failure(InvalidArgumentsExit)
      else
        Success(cfg)
  }

  /** Whether the arguments are accepted does not depend on n_works at all. */
  lemma NWorksIsNotChecked(args: seq<int>, w: int)
    requires |args| == ExpectedArgc - 1
    ensures CheckArguments(args).Success? <==> CheckArguments(args[4 := w]).Success?
    ensures CheckArguments(args[4 := w]).Success? ==> CheckArguments(args[4 := w]).value.nWorks == w
  {
  }

  /** As written, n_works = 0 passes the check although the work sizes then divide by it. */
  lemma ZeroWorksAccepted()
    ensures CheckArguments([1, 1, 1, 1, 0]) == Success(Config(1, 1, 1, 1, 0))
  {
  }

  /**
   * The argument check with the missing case added: n_works must be positive as well,
   * so that the work sizes are defined. Every other input is treated as `main` treats it.
   */
  function CheckConfig(args: seq<int>): (r: Result<Config>)
    ensures r.Failure? ==> r.exitCode == InvalidArgumentsExit
    ensures r.Success? <==> CheckArguments(args).Success? && args[4] > 0
    ensures r.Success? ==> r == CheckArguments(args)
    ensures r.Success? ==> r.value.m > 0 && r.value.n > 0 && r.value.k > 0 && r.value.nRuns > 0 && r.value.nWorks > 0
  {
    var r := CheckArguments(args);
    if r.Success? && r.value.nWorks <= 0 then Failure(InvalidArgumentsExit) else r
  }

  function IntAbs(x: int): nat
  {
    if x < 0 then -x else x
  }

  /** C's integer `/`, which truncates toward zero (Dafny's `/` is Euclidean). */
  function CDiv(a: int, b: int): (q: int)
    requires b != 0
    ensures a >= 0 && b > 0 ==> q == a / b
    ensures IntAbs(q) == IntAbs(a) / IntAbs(b)
    ensures (a < 0) == (b < 0) ==> q >= 0
    ensures (a < 0) != (b < 0) ==> q <= 0
  {
    var x, y := IntAbs(a), IntAbs(b);
    QuotientBounds(x, y);
    var q := x / y;
    if (a < 0) == (b < 0) then q else -q
  }

  /** The quotient of non-negative integers brackets the dividend. */
  lemma QuotientBounds(x: int, y: int)
    ensures x >= 0 && y > 0 ==> 0 <= x / y && (x / y) * y <= x < (x / y + 1) * y
  {
  }

  /**
   * The launch geometry: global size {m, n / n_works} and local size {64, 64 / n_works},
   * both with C's truncating division. Each work-item computes n_works columns, so the
   * global size covers at most n columns and misses fewer than n_works of them.
   */
  function DispatchSizes(cfg: Config): (d: Dispatch)
    requires cfg.nWorks != 0
    ensures d.global.0 == cfg.m && d.local.0 == LocalRows
    ensures cfg.nWorks > 0 && cfg.n >= 0 ==>
              0 <= d.global.1 * cfg.nWorks <= cfg.n < (d.global.1 + 1) * cfg.nWorks
    ensures cfg.nWorks > 0 ==>
              0 <= d.local.1 * cfg.nWorks <= LocalRows < (d.local.1 + 1) * cfg.nWorks
    ensures cfg.nWorks > 0 ==> (d.local.1 > 0 <==> cfg.nWorks <= LocalRows)
  {
    QuotientBounds(LocalRows, cfg.nWorks);
    QuotientBounds(cfg.n, cfg.nWorks);
    Dispatch((cfg.m, CDiv(cfg.n, cfg.nWorks)), (LocalRows, CDiv(LocalRows, cfg.nWorks)))
  }

  /** When n_works divides n, the work-items of a row cover its n columns exactly. */
  lemma ColumnsCoveredExactly(cfg: Config)
    requires cfg.nWorks > 0 && cfg.n >= 0 && cfg.n % cfg.nWorks == 0
    ensures DispatchSizes(cfg).global.1 * cfg.nWorks == cfg.n
  {
  }
}
