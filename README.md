# OpenCL matrix-multiplication benchmark: a Dafny model of its host program

The program (`main.cpp`) takes five arguments: `m n k n_runs n_works`. It fills
A (m x k) and B (k x n) with random values and launches an OpenCL kernel
`n_runs` times, timing each launch. It prints the mean and the standard
deviation of the launch times. It then reads the device's product C back and
compares it with a product computed on the host by `multiply_matrices`. Each
cell that differs by more than 1 counts as an error.

This project models the host-side logic that decides what the program computes
and returns:

- `ReferenceMultiply` (`reference_multiply.dfy`): `multiply_matrices`, the triple
  loop that writes the reference product into C in place. It is proved equal to
  the mathematical product (`Product`). Each cell of that product is the dot
  product of a row of A and a column of B.
- `Validation` (`validation.dfy`): the loop that counts mismatches, and the
  "correct"/"incorrect" verdict.
- `Timing` (`timing.dfy`): the timed dispatch loop. It fills `time_arr` and
  `total_time`, and stops at the first failed launch. Then come the mean and the
  squared-deviation sum whose population variance the program takes the square
  root of.
- `Arguments` (`arguments.dfy`): the argument check and the work sizes
  `{m, n / n_works}` and `{64, 64 / n_works}`, computed with C's truncating
  division (`CDiv`).
- `Benchmark` (`benchmark.dfy`): the order of these steps in `main`, and its exit
  codes. -1 means rejected arguments, -2 a failed launch or wait, -3 a failed
  read-back, 0 completion.

Matrix elements and times are `real`. The device is a parameter: `Run` receives
the outcome of every launch (a duration, or which call failed) and the matrix
read back (or `None` when the read fails).

Where the code and its written description differ, the model follows the code:

- A failed kernel build only prints the build log (main.cpp:130-138). The
  program carries on.
- `CheckArguments` follows the code: `n_works` is never checked (main.cpp:55).
  `Run`, the model of `main`, uses the corrected check `CheckConfig` instead,
  which also rejects a non-positive `n_works`; see Left out and Findings.

The exit codes of `main` (-1, -2, -3 and 0) are declared together in `Common`
(`common.dfy`).

## Model

| member | source | states |
|---|---|---|
| ReferenceMultiply.MultiplyMatrices | main.cpp:29-39 | After the call, C holds exactly the m x n product of A and B, whatever C held before. Only C is written. |
| ReferenceMultiply.RowColumnSum | main.cpp:32-35 | The innermost loop's running sum over l < k ends equal to the dot product of row i of A and column j of B. |
| ReferenceMultiply.ProductCell | main.cpp:34-36 | Cell i*n+j of the product lies inside C and equals the sum over l of A[i*k+l] * B[l*n+j]. |
| ReferenceMultiply.PartialDotStep | main.cpp:33-34 | Each iteration adds exactly the term A[i*k+l] * B[l*n+j] to the sum. Both indices are in bounds. |
| ReferenceMultiply.IndexInBounds | main.cpp:34-36 | Every index the triple loop reads or writes (i*k+l, l*n+j, i*n+j) lies inside its buffer of m*k, k*n or m*n cells. |
| ReferenceMultiply.TwoByTwoExample | main.cpp:29-39 | For [1 2; 3 4] and [5 6; 7 8] the product is [19 22; 43 50]. |
| ReferenceMultiply.RerunIsIdentical | main.cpp:29-39 | Two runs on the same A and B, into buffers with different prior contents, leave the same result. |
| ReferenceMultiply.RowOfIndex | main.cpp:36 | A flat index below m*n names a row below m and a column below n. |
| ReferenceMultiply.CellOfIndex | main.cpp:36 | Row i and column j are recovered from the flat index i*n+j by division and remainder. |
| ReferenceMultiply.RowFits | main.cpp:34 | Row i of A (indices i*k to i*k+k-1) lies inside the m*k buffer. |
| ReferenceMultiply.RowMajorBound | main.cpp:34-36 | A row-major index x*n+y with x below its row count and y below n stays inside the buffer. |
| ReferenceMultiply.Product | main.cpp:29-39 | Reference definition of the m x n product, with m*n cells. ProductCell and TwoByTwoExample fix its cells. |
| Validation.CountErrors | main.cpp:199-204 | `errors` is the number of cells where the absolute difference from C_ref exceeds 1, and it lies between 0 and m*n. |
| Validation.MismatchesIsCardinality | main.cpp:199-204 | The count equals the size of the set of positions that differ by more than the tolerance. |
| Validation.MismatchesBounded | main.cpp:199-204 | The count never exceeds the number of cells compared. |
| Validation.NoMismatchesIff | main.cpp:199-205 | The count is 0 if and only if every cell is within the tolerance. |
| Validation.IdenticalHasNoMismatches | main.cpp:199-205 | A result equal to the reference has no errors. |
| Validation.ReportVerdict | main.cpp:205-210 | The verdict is "correct" if and only if there are no errors. Otherwise it is "incorrect" and carries the positive count. |
| Validation.VerdictCorrectIff | main.cpp:199-210 | The verdict is "correct" exactly when every cell is within 1 of the reference. An "incorrect" verdict reports the number of wrong cells. |
| Timing.RecordRuns | main.cpp:156-175 | `time_arr` has n_runs slots. The loop succeeds if and only if every launch and wait succeeds. On success, `time_arr` holds the durations in run order and `total_time` is their sum. |
| Timing.MeanAndDeviation | main.cpp:177-183 | The mean is total/n_runs. The accumulated squared deviation and the variance (that sum over n_runs) equal their definitions and are never negative. |
| Timing.Durations | main.cpp:172-174 | Reference definition: the durations of completed launches, one per run, in run order. Its contents are what RecordRuns proves `time_arr` holds. |
| Timing.Square | main.cpp:181 | `pow(x, 2)` is never negative. |
| Timing.SquaredDeviationsNonNegative | main.cpp:180-182 | The sum of squared deviations is never negative, whatever the center. |
| Timing.SquaredDeviationsOfConstant | main.cpp:180-182 | Samples all equal to the center have a squared-deviation sum of 0. |
| Timing.SumOfConstant | main.cpp:173 | n equal samples c sum to n*c. |
| Timing.SumWithin | main.cpp:173 | Samples within [lo, hi] sum to between n*lo and n*hi. |
| Timing.MeanWithin | main.cpp:178 | The mean lies between any lower and upper bound of the samples. |
| Timing.MeanOfConstant | main.cpp:178 | The mean of equal samples is that sample. |
| Timing.EqualSamplesHaveNoDeviation | main.cpp:177-183 | When all samples are equal, the mean is the sample and the variance (hence the deviation) is 0. |
| Timing.SingleRun | main.cpp:177-183 | With n_runs = 1, the mean is the one duration and the deviation is 0. |
| Arguments.CheckArguments | main.cpp:44-58 | The program goes on if and only if argc is 6 and m, n, k and n_runs are all positive. Otherwise it returns -1. The accepted configuration is the arguments in order. |
| Arguments.NWorksIsNotChecked | main.cpp:53-55 | Changing n_works never changes whether the arguments are accepted. |
| Arguments.ZeroWorksAccepted | main.cpp:53-55 | n_works = 0 is accepted as written. |
| Arguments.CheckConfig | main.cpp:44-58 | The corrected check accepts exactly what the original accepts when n_works > 0, and then all five values are positive. It rejects with -1 otherwise. |
| Arguments.CDiv | main.cpp:154-155 | C's truncating division: for non-negative operands it is Euclidean division. Its magnitude is the quotient of the magnitudes. Its sign follows the operands' signs. |
| Arguments.QuotientBounds | main.cpp:154-155 | Helper for `CDiv` and `DispatchSizes`, not a model of those lines by itself: for x >= 0 and y > 0, the quotient is non-negative and (x/y)*y <= x < (x/y + 1)*y. |
| Arguments.DispatchSizes | main.cpp:154-155 | The global size is {m, n/n_works} and the local size is {64, 64/n_works}. n/n_works work-items of n_works columns each cover at most n columns and miss fewer than n_works. The second local size is positive if and only if n_works <= 64. |
| Arguments.ColumnsCoveredExactly | main.cpp:154 | When n_works divides n, the work-items cover exactly n columns. |
| Benchmark.Run | main.cpp:42-227 | The exit code is -1 exactly when the arguments are rejected, -2 exactly when some launch or wait fails, -3 exactly when the read-back fails, and 0 otherwise. On -3 and 0 the report holds the dispatch sizes that were computed, the mean that is printed, and the variance whose square root is printed. On 0 it also holds the verdict of comparing the read-back with the reference product, which is "correct" exactly when every cell is within 1. |
| Benchmark.ToArray | main.cpp:76-79 | A fresh buffer holding exactly the given matrix. |

## Left out

- The OpenCL calls are not modelled. That covers platform and device selection, context, queue, buffers, writes, program build, kernel creation and arguments, and release. Their outcomes reach `Run` only as the launch outcomes and the read-back value.
- The kernel `matrix_mult.cl` is not part of this model. What it computes arrives as the read-back matrix.
- Reading the kernel file (`exit(1)` when it is missing, `MAX_SOURCE_SIZE`) is I/O and is not modelled.
- The build-log branch is not modelled. It only prints, and the program continues.
- `print_device_info` and every `printf` are output only and are not modelled as text. `Report` holds the mean (printed at main.cpp:185), the variance (whose square root main.cpp:183-186 prints as the standard deviation), the verdict and its error count (main.cpp:205-210), and the dispatch sizes, which `main` computes at main.cpp:154-155 but does not print.
- `srand`/`rand` are not modelled: A and B are parameters of `Run`.
- Floating point is not modelled. Elements and times are `real`, so float rounding in the host sum, `fabs` and `pow` are exact here.
- `sqrt` is left out: the model stops at the variance, whose square root the program prints.
- The profiling timestamps (`cl_ulong`) and the 1e-6 scaling to milliseconds are not modelled. Each launch yields its duration directly.
- `atoi` is not modelled: the arguments arrive already converted to integers.
- `malloc`, `free` and `delete` are not modelled beyond the allocation of fresh arrays.
- Benchmark.Run: assumes the environment supplies matrices of the sizes the arguments name. It does not model 32-bit overflow of `m * k`, `k * n` or `m * n`.
- Arguments.DispatchSizes: does not model the conversion of a negative quotient to `size_t`. After the argument check, the quotient is negative only when n_works is negative.
- Timing.SquaredDeviationsOfConstant: proves that equal samples give 0, not the converse that a zero sum forces all samples equal.
- Benchmark.Run: uses the corrected check `CheckConfig`, so it exits with -1 for every n_works <= 0, unlike `main`. For n_works = 0, main.cpp:154-155 divides by zero (undefined behaviour). For n_works < 0, the truncating divisions there are defined and negative (or zero). Their conversion to `size_t` wraps them to huge sizes, and `main` goes on to launch the kernel with them (main.cpp:158-159). The model models neither behaviour.

## Findings

| source | as written | input that shows it | evidently intended | confidence | as-written member | corrected member |
|---|---|---|---|---|---|---|
| main.cpp:53-55, 154-155 | The argument check tests m, n, k and n_runs but not n_works. n_works = 0 is accepted, and `n / n_works` and `64 / n_works` then divide by zero (undefined behaviour in C). | `prog 1 1 1 1 0` | n_works must be positive, and is rejected with -1 like the other arguments | not executed | Arguments.ZeroWorksAccepted | Arguments.CheckConfig |
