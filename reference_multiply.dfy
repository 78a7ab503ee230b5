/**
 * The host-side reference product `multiply_matrices` (main.cpp:29-39).
 *
 * Matrices are flat row-major buffers: A is m x k, B is k x n and C is m x n,
 * so cell (i, j) of C lives at index i*n + j. Elements are modelled as `real`:
 * the source accumulates in 32-bit floats, whose rounding is not modelled.
 */
module ReferenceMultiply {

  /** Multiplication by a non-negative factor is monotone. */
  lemma MulMonotone(a: int, b: int, n: int)
    requires a <= b && 0 <= n
    ensures a * n <= b * n
  {
  }

  /** A row-major index x*n + y with x < bound and y < n stays below bound*n. */
  lemma RowMajorBound(x: int, y: int, bound: int, n: int)
    requires 0 <= x < bound && 0 <= y < n
    ensures 0 <= x * n + y < bound * n
  {
    MulMonotone(0, x, n);
    MulMonotone(x + 1, bound, n);
  }

  /** Row i of an m-row matrix with k columns ends within the matrix. */
  lemma RowFits(i: int, m: int, k: int)
    requires 0 <= i < m && 0 <= k
    ensures i * k + k <= m * k
  {
    MulMonotone(i + 1, m, k);
    assert (i + 1) * k == i * k + k;
  }

  /** A flat index p below m*n names row p / n (below m) and column p % n. */
  lemma RowOfIndex(p: int, m: nat, n: nat)
    requires 0 <= p < m * n
    ensures n > 0 && 0 <= p / n < m && 0 <= p % n < n
  {
  }

  /** Row i and column j are recovered from the flat index i*n + j. */
  lemma CellOfIndex(i: int, j: int, n: int)
    requires 0 <= i && 0 <= j < n
    ensures (i * n + j) / n == i && (i * n + j) % n == j
  {
    var q, r := (i * n + j) / n, (i * n + j) % n;
    assert q * n + r == i * n + j;
    assert (q - i) * n == j - r;
    if q > i {
      MulMonotone(1, q - i, n);
    } else if q < i {
      MulMonotone(1, i - q, n);
    }
  }

  /** Every index the triple loop of `multiply_matrices` touches lies inside its buffer. */
  lemma IndexInBounds(m: int, n: int, k: int, i: int, j: int, l: int)
    requires 0 <= i < m && 0 <= j < n && 0 <= l < k
    ensures 0 <= i * k + l < m * k
    ensures 0 <= l * n + j < k * n
    ensures 0 <= i * n + j < m * n
  {
    RowMajorBound(i, l, m, k);
    RowMajorBound(l, j, k, n);
    RowMajorBound(i, j, m, n);
  }

  /** The first `len` terms of the dot product of row i of A with column j of B:
      the sum over l < len of a[i*k + l] * b[l*n + j], accumulated in loop order. */
  function PartialDot(a: seq<real>, b: seq<real>, k: int, n: int, i: int, j: int, len: int): real
    requires 0 <= i && 0 <= j < n && 0 <= len <= k
    requires i * k + k <= |a| && k * n <= |b|
    decreases len
  {
    if len == 0 then 0.0
    else
      RowMajorBound(len - 1, j, k, n);
      PartialDot(a, b, k, n, i, j, len - 1) + a[i * k + len - 1] * b[(len - 1) * n + j]
  }

  /** One more term of the dot product: the step the innermost loop takes. */
  lemma PartialDotStep(a: seq<real>, b: seq<real>, k: int, n: int, i: int, j: int, len: int)
    requires 0 <= i && 0 <= j < n && 0 <= len < k
    requires i * k + k <= |a| && k * n <= |b|
    ensures 0 <= i * k + len < |a| && 0 <= len * n + j < |b|
    ensures PartialDot(a, b, k, n, i, j, len + 1) ==
              PartialDot(a, b, k, n, i, j, len) + a[i * k + len] * b[len * n + j]
  {
    RowMajorBound(len, j, k, n);
  }

  /** The full dot product of row i of A (m x k) with column j of B (k x n). */
  function Dot(a: seq<real>, b: seq<real>, k: int, n: int, i: int, j: int): real
    requires 0 <= i && 0 <= j < n && 0 <= k
    requires i * k + k <= |a| && k * n <= |b|
  {
    PartialDot(a, b, k, n, i, j, k)
  }

  /** The value that belongs at flat index p of the m x n product. */
  function Cell(a: seq<real>, b: seq<real>, m: nat, n: nat, k: nat, p: int): real
    requires |a| == m * k && |b| == k * n && 0 <= p < m * n
  {
    RowOfIndex(p, m, n);
    MulMonotone(p / n + 1, m, k);
    Dot(a, b, k, n, p / n, p % n)
  }

  /** The m x n product of A (m x k) and B (k x n), as a flat row-major sequence. */
  function Product(a: seq<real>, b: seq<real>, m: nat, n: nat, k: nat): (c: seq<real>)
    requires |a| == m * k && |b| == k * n
    ensures |c| == m * n
  {
    seq(m * n, p requires 0 <= p < m * n => Cell(a, b, m, n, k, p))
  }

  /** Cell (i, j) of the product is the dot product of row i of A and column j of B. */
  lemma ProductCell(a: seq<real>, b: seq<real>, m: nat, n: nat, k: nat, i: int, j: int)
    requires |a| == m * k && |b| == k * n
    requires 0 <= i < m && 0 <= j < n
    ensures 0 <= i * n + j < m * n && i * k + k <= |a|
    ensures Product(a, b, m, n, k)[i * n + j] == Dot(a, b, k, n, i, j)
  {
    RowMajorBound(i, j, m, n);
    MulMonotone(i + 1, m, k);
    CellOfIndex(i, j, n);
  }

  /** The worked example: [1 2; 3 4] * [5 6; 7 8] == [19 22; 43 50]. */
  lemma TwoByTwoExample()
    ensures Product([1.0, 2.0, 3.0, 4.0], [5.0, 6.0, 7.0, 8.0], 2, 2, 2) == [19.0, 22.0, 43.0, 50.0]
  {
  }

  /** The innermost loop of `multiply_matrices`: the running `sum` for cell (i, j). */
  method RowColumnSum(A: array<real>, B: array<real>, m: nat, n: nat, k: nat, i: nat, j: nat)
    returns (sum: real)
    requires A.Length == m * k && B.Length == k * n
    requires i < m && j < n
    ensures i * k + k <= A.Length
    ensures sum == Dot(A[..], B[..], k, n, i, j)
  {
    ghost var a, b := A[..], B[..];
    RowFits(i, m, k);
    sum := 0.0;
    for l := 0 to k
      invariant sum == PartialDot(a, b, k, n, i, j, l)
    {
      PartialDotStep(a, b, k, n, i, j, l);
      sum := sum + A[i * k + l] * B[l * n + j];
    }
  }

  /**
   * `multiply_matrices`: fills C in place, cell by cell, with the product of A and B.
   * Every cell of C is overwritten, so the result depends on A and B only; A and B
   * are read and left unchanged.
   */
  method MultiplyMatrices(A: array<real>, B: array<real>, C: array<real>, m: nat, n: nat, k: nat)
    requires A.Length == m * k && B.Length == k * n && C.Length == m * n
    requires C != A && C != B
    modifies C
    ensures C[..] == Product(A[..], B[..], m, n, k)
  {
    ghost var a, b := A[..], B[..];
    ghost var prod := Product(a, b, m, n, k);
    for i := 0 to m
      invariant i * n <= m * n
      invariant forall p :: 0 <= p < i * n ==> C[p] == prod[p]
    {
      ghost var rowStart := i * n;
      MulMonotone(i + 1, m, n);
      assert (i + 1) * n == rowStart + n;
      for j := 0 to n
        invariant forall p :: 0 <= p < rowStart + j ==> C[p] == prod[p]
      {
        var sum := RowColumnSum(A, B, m, n, k, i, j);
        ProductCell(a, b, m, n, k, i, j);
        C[i * n + j] := sum;
      }
    }
    assert C[..] == prod;
  }

  /** Running the reference twice, into buffers with any prior contents, gives the same result. */
  method RerunIsIdentical(A: array<real>, B: array<real>, C1: array<real>, C2: array<real>, m: nat, n: nat, k: nat)
    requires A.Length == m * k && B.Length == k * n && C1.Length == m * n && C2.Length == m * n
    requires C1 != A && C1 != B && C2 != A && C2 != B
    modifies C1, C2
    ensures C1[..] == C2[..]
  {
    MultiplyMatrices(A, B, C1, m, n, k);
    MultiplyMatrices(A, B, C2, m, n, k);
  }
}
