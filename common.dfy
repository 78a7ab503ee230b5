/** Result and option types and the exit codes shared by the modules of the benchmark host. */
module Common {

  /** The exit codes of `main`. */
  const InvalidArgumentsExit: int := -1   // wrong argument count or a non-positive size (main.cpp:44-58)
  const KernelFailureExit: int := -2      // a launch or the wait for it failed (main.cpp:159-168)
  const ReadBackFailureExit: int := -3    // the result buffer could not be read back (main.cpp:189-194)
  const SuccessExit: int := 0             // the run completed (main.cpp:226)

  /** An optional value: a buffer read that may fail. */
  datatype Option<T> = None | Some(value: T)

  /** A value, or the process exit code that stops the run. */
  datatype Result<T> = Success(value: T) | Failure(exitCode: int)
}
