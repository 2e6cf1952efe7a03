/**
 * Dense m x n matrices over exact reals and the three elementary row
 * operations of main.c: `swap`, `mult` and `add`.
 *
 * The C functions update a `double[m][n]` in place; here each one is a pure
 * function from a matrix to the matrix it leaves behind.
 */
module Matrices {

  /** A matrix is its sequence of rows. */
  type Matrix = seq<seq<real>>

  /** A non-empty rectangular grid: at least one row, at least one column,
      and every row as long as the first. */
  predicate IsMatrix(A: Matrix) {
    |A| > 0 && |A[0]| > 0 && forall i :: 0 <= i < |A| ==> |A[i]| == |A[0]|
  }

  /** Number of columns (0 for a matrix without rows). */
  function Width(A: Matrix): nat {
    if |A| == 0 then 0 else |A[0]|
  }

  /** Both are matrices, with the same number of rows and of columns. */
  predicate SameShape(A: Matrix, B: Matrix) {
    IsMatrix(A) && IsMatrix(B) && |A| == |B| && Width(A) == Width(B)
  }

  /** The row x + c * y, entrywise. */
  function Combine(x: seq<real>, c: real, y: seq<real>): (z: seq<real>)
    requires |x| == |y|
    ensures |z| == |x|
    ensures forall col {:trigger z[col]} :: 0 <= col < |x| ==> z[col] == x[col] + c * y[col]
    decreases |x|
  {
    if |x| == 0 then [] else [x[0] + c * y[0]] + Combine(x[1..], c, y[1..])
  }

  /** The row c * x, entrywise. */
  function Scale(c: real, x: seq<real>): (z: seq<real>)
    ensures |z| == |x|
    ensures forall col {:trigger z[col]} :: 0 <= col < |x| ==> z[col] == c * x[col]
    decreases |x|
  {
    if |x| == 0 then [] else [c * x[0]] + Scale(c, x[1..])
  }

  /** `swap(A, a, b)`: rows a and b trade places; every other row stays. */
  function SwapRows(A: Matrix, a: nat, b: nat): (B: Matrix)
    requires IsMatrix(A) && a < |A| && b < |A|
    ensures SameShape(A, B)
    ensures B[a] == A[b] && B[b] == A[a]
    ensures forall k {:trigger B[k]} :: 0 <= k < |A| && k != a && k != b ==> B[k] == A[k]
    ensures a == b ==> B == A
  {
    A[a := A[b]][b := A[a]]
  }

  /** `mult(A, a, c)`: row a is multiplied entrywise by c; every other row stays. */
  function MultRow(A: Matrix, a: nat, c: real): (B: Matrix)
    requires IsMatrix(A) && a < |A|
    ensures SameShape(A, B)
    ensures forall col {:trigger B[a][col]} :: 0 <= col < Width(A) ==> B[a][col] == c * A[a][col]
    ensures forall k {:trigger B[k]} :: 0 <= k < |A| && k != a ==> B[k] == A[k]
  {
    A[a := Scale(c, A[a])]
  }

  /** `add(A, a, b, c)`: row a becomes row a plus c times row b, entrywise;
      every row other than a stays (so row b stays when a != b). With a == b
      the C loop reads and writes the same cell at each column, so the row is
      scaled by 1 + c, which is what this definition gives as well. */
  function AddRow(A: Matrix, a: nat, b: nat, c: real): (B: Matrix)
    requires IsMatrix(A) && a < |A| && b < |A|
    ensures SameShape(A, B)
    ensures forall col {:trigger B[a][col]} :: 0 <= col < Width(A) ==> B[a][col] == A[a][col] + c * A[b][col]
    ensures forall k {:trigger B[k]} :: 0 <= k < |A| && k != a ==> B[k] == A[k]
    ensures a != b ==> B[b] == A[b]
  {
    A[a := Combine(A[a], c, A[b])]
  }

  /** Two matrices of the same shape are equal when they agree at every cell. */
  lemma {:induction false} CellwiseEqual(A: Matrix, B: Matrix)
    requires SameShape(A, B)
    requires forall r, col :: 0 <= r < |A| && 0 <= col < Width(A) ==> A[r][col] == B[r][col]
    ensures A == B
  {
    forall r | 0 <= r < |A|
      ensures A[r] == B[r]
    {
      assert |A[r]| == Width(A) == |B[r]|;
    }
  }

  /** Swapping the same two rows twice gives back the original matrix. */
  lemma {:induction false} SwapInvolution(A: Matrix, a: nat, b: nat)
    requires IsMatrix(A) && a < |A| && b < |A|
    ensures SwapRows(SwapRows(A, a, b), a, b) == A
  {
  }


  /** Multiplying a row by a nonzero c and then by 1/c gives back the matrix. */
  lemma {:induction false} MultInverse(A: Matrix, a: nat, c: real)
    requires IsMatrix(A) && a < |A| && c != 0.0
    ensures MultRow(MultRow(A, a, c), a, 1.0 / c) == A
  {
    var B := MultRow(MultRow(A, a, c), a, 1.0 / c);
    forall r, col | 0 <= r < |A| && 0 <= col < Width(A)
      ensures B[r][col] == A[r][col]
    {
      if r == a {
        assert B[r][col] == (1.0 / c) * (c * A[r][col]);
      }
    }
    CellwiseEqual(B, A);
  }

  /** Adding c times row b to row a, then -c times row b, gives back the
      matrix, provided the two rows differ. */
  lemma {:induction false} AddInverse(A: Matrix, a: nat, b: nat, c: real)
    requires IsMatrix(A) && a < |A| && b < |A| && a != b
    ensures AddRow(AddRow(A, a, b, c), a, b, -c) == A
  {
    var B := AddRow(AddRow(A, a, b, c), a, b, -c);
    forall r, col | 0 <= r < |A| && 0 <= col < Width(A)
      ensures B[r][col] == A[r][col]
    {
    }
    CellwiseEqual(B, A);
  }

  /** Multiplying a row by 1 changes nothing. */
  lemma {:induction false} MultByOne(A: Matrix, a: nat)
    requires IsMatrix(A) && a < |A|
    ensures MultRow(A, a, 1.0) == A
  {
    CellwiseEqual(MultRow(A, a, 1.0), A);
  }
}
