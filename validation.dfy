/**
 * The result check at the end of `main` (main.cpp:198-210): the accelerator's
 * result C is compared cell by cell with the host reference C_ref, and cells
 * that differ by more than an absolute tolerance of 1 are counted as errors.
 */
module Validation {

  /** The absolute tolerance of the comparison. */
  const Tolerance: real := 1.0

  function Abs(x: real): real
  {
    if x < 0.0 then -x else x
  }

  /** A cell is wrong when it is further than the tolerance from the reference. */
  predicate Exceeds(c: real, r: real)
  {
    Abs(c - r) > Tolerance
  }

  /** The number of positions at which c and r differ by more than the tolerance,
      counted in index order as the validation loop does. */
  function Mismatches(c: seq<real>, r: seq<real>): nat
    requires |c| == |r|
  {
    if |c| == 0 then 0
    else Mismatches(c[..|c| - 1], r[..|r| - 1]) + (if Exceeds(c[|c| - 1], r[|r| - 1]) then 1 else 0)
  }

  /** The positions at which c and r differ by more than the tolerance. */
  ghost function MismatchSet(c: seq<real>, r: seq<real>): set<int>
    requires |c| == |r|
  {
    set i | 0 <= i < |c| && Exceeds(c[i], r[i])
  }

  /** The count is exactly the number of wrong positions. */
  lemma {:induction false} MismatchesIsCardinality(c: seq<real>, r: seq<real>)
    requires |c| == |r|
    ensures Mismatches(c, r) == |MismatchSet(c, r)|
  {
    if |c| > 0 {
      var last := |c| - 1;
      MismatchesIsCardinality(c[..last], r[..last]);
      var prefix := MismatchSet(c[..last], r[..last]);
      if Exceeds(c[last], r[last]) {
        assert MismatchSet(c, r) == prefix + {last};
      } else {
        assert MismatchSet(c, r) == prefix;
      }
    }
  }

  /** The count never exceeds the number of cells compared. */
  lemma {:induction false} MismatchesBounded(c: seq<real>, r: seq<real>)
    requires |c| == |r|
    ensures Mismatches(c, r) <= |c|
  {
    if |c| > 0 {
      MismatchesBounded(c[..|c| - 1], r[..|r| - 1]);
    }
  }

  /** The count is zero exactly when every cell is within the tolerance. */
  lemma {:induction false} NoMismatchesIff(c: seq<real>, r: seq<real>)
    requires |c| == |r|
    ensures Mismatches(c, r) == 0 <==> forall i :: 0 <= i < |c| ==> !Exceeds(c[i], r[i])
  {
    if |c| > 0 {
      var last := |c| - 1;
      NoMismatchesIff(c[..last], r[..last]);
      assert forall i :: 0 <= i < last ==> c[..last][i] == c[i] && r[..last][i] == r[i];
    }
  }

  /** A result identical to the reference has no errors. */
  lemma IdenticalHasNoMismatches(c: seq<real>)
    ensures Mismatches(c, c) == 0
  {
    NoMismatchesIff(c, c);
  }

  /** The validation loop: counts the cells i < m*n where |C[i] - C_ref[i]| > 1. */
  method CountErrors(C: array<real>, Cref: array<real>, m: int, n: int) returns (errors: int)
    requires C.Length == m * n && Cref.Length == m * n
    ensures errors == Mismatches(C[..], Cref[..])
    ensures 0 <= errors <= m * n
  {
    errors := 0;
    for i := 0 to m * n
      invariant errors == Mismatches(C[..i], Cref[..i])
    {
      assert C[..i + 1][..i] == C[..i] && Cref[..i + 1][..i] == Cref[..i];
      if Abs(C[i] - Cref[i]) > 1.0 {
        errors := errors + 1;
      }
    }
    assert C[..] == C[..m * n] && Cref[..] == Cref[..m * n];
    MismatchesBounded(C[..], Cref[..]);
  }

  /** What the program reports about the result matrix. */
  datatype Verdict = Correct | Incorrect(errors: int)

  /** The message chosen from the error count: "correct" when there are none,
      otherwise "incorrect" with the count. */
  function ReportVerdict(errors: nat): (v: Verdict)
    ensures v.Correct? <==> errors == 0
    ensures v.Incorrect? ==> v.errors == errors > 0
  {
    if errors == 0 then Correct else Incorrect(errors)
  }

  /** The verdict is "correct" exactly when every cell of C is within the tolerance
      of the reference, and an "incorrect" verdict carries the number of wrong cells. */
  lemma VerdictCorrectIff(c: seq<real>, r: seq<real>)
    requires |c| == |r|
    ensures ReportVerdict(Mismatches(c, r)).Correct? <==> forall i :: 0 <= i < |c| ==> !Exceeds(c[i], r[i])
    ensures ReportVerdict(Mismatches(c, r)).Incorrect? ==>
              ReportVerdict(Mismatches(c, r)).errors == |MismatchSet(c, r)| > 0
  {
    NoMismatchesIff(c, r);
    MismatchesIsCardinality(c, r);
  }
}
