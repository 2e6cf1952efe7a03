/**
 * Reducing a matrix that is already in reduced row-echelon form changes
 * nothing and swaps no rows: every column either confirms the pivot already
 * in the anchor row (normalising by 1 and eliminating with factor 0) or is
 * skipped.
 */
module Idempotence {
  import opened Matrices
  import opened Trace
  import opened Echelon
  import opened Eliminator

  /** Adding 0 times a row leaves a row unchanged. */
  lemma {:induction false} CombineZero(x: seq<real>, y: seq<real>)
    requires |x| == |y|
    ensures Combine(x, -0.0, y) == x
  {
  }

  /** Where an RREF matrix stands before column j: the first `anchor` rows
      lead before column j, the others lead at j or later (or are zero). */
  predicate Reached(A: Matrix, j: nat, anchor: nat) {
    && IsRref(A) && anchor <= |A|
    && (forall r :: 0 <= r < anchor ==> Lead(A[r]) < j)
    && (forall r :: anchor <= r < |A| ==> Lead(A[r]) >= j)
  }

  /** When the anchor row of an RREF matrix leads at column j, the column
      finds its pivot there, normalises by 1 and eliminates with factor 0:
      the matrix is unchanged, no swap is emitted, and the anchor moves on. */
  lemma {:induction false} PivotConfirmed(A: Matrix, j: nat, anchor: nat, eps: real)
    requires j < Width(A) && 0.0 <= eps < 1.0 && Reached(A, j, anchor)
    requires anchor < |A| && Lead(A[anchor]) == j
    ensures var p := Column(A, j, anchor, eps);
      && p.mat == A && Count(p.steps, IsSwap) == 0
      && Reached(A, j + 1, p.anchor)
  {
    var p := Column(A, j, anchor, eps);
    assert !ZeroRow(A[anchor]) by {
      LeadOfZeroRow(A[anchor]);
    }
    assert UnitColumn(A, j, anchor);
    assert FindPivot(A, j, anchor, eps) == PivotAt(anchor);
    MultByOne(A, anchor);
    var E := EliminateFrom(A, j, anchor, 0);
    assert p == Pivoted(A, j, anchor, anchor);
    assert p.steps == [] + [Normalize(anchor, 1.0, A)] + E.steps;
    EliminateRows(A, j, anchor, 0);
    forall k | 0 <= k < |A|
      ensures E.mat[k] == A[k]
    {
      if k != anchor {
        CombineZero(A[k], A[anchor]);
      }
    }
    assert E.mat == A;
    EliminateOrder(A, j, anchor, 0);
    EliminationRunCounts(E.steps, anchor, j, 0, |A|);
    CountAppend([] + [Normalize(anchor, 1.0, A)], E.steps, IsSwap);
    forall r | anchor + 1 <= r < |A|
      ensures Lead(A[r]) >= j + 1
    {
      LeadOfZeroRow(A[r]);
    }
  }

  /** When no row from the anchor down leads at column j, the whole column is
      zero there and is skipped. */
  lemma {:induction false} ColumnSkipped(A: Matrix, j: nat, anchor: nat, eps: real)
    requires j < Width(A) && 0.0 <= eps < 1.0 && Reached(A, j, anchor)
    requires anchor == |A| || Lead(A[anchor]) != j
    ensures var p := Column(A, j, anchor, eps);
      && p.mat == A && p.steps == [Skip(j)] && p.anchor == anchor
      && Reached(A, j + 1, p.anchor)
  {
    forall r | anchor <= r < |A|
      ensures Lead(A[r]) > j && A[r][j] == 0.0
    {
      LeadOfZeroRow(A[r]);
      if r > anchor {
        LeadOfZeroRow(A[anchor]);
      }
    }
  }

  /** A column of an RREF matrix changes nothing and emits no swap. */
  lemma {:induction false} ColumnKeepsRref(A: Matrix, j: nat, anchor: nat, eps: real)
    requires j < Width(A) && 0.0 <= eps < 1.0 && Reached(A, j, anchor)
    ensures var p := Column(A, j, anchor, eps);
      && p.mat == A && Count(p.steps, IsSwap) == 0
      && Reached(A, j + 1, p.anchor)
  {
    if anchor < |A| && Lead(A[anchor]) == j {
      PivotConfirmed(A, j, anchor, eps);
    } else {
      ColumnSkipped(A, j, anchor, eps);
      assert Count([Skip(j)], IsSwap) == 0;
    }
  }

  /** When column j leaves the matrix alone, the loop from j ends where the
      loop from j + 1 ends, and its swaps are those of the column and of the
      rest. */
  lemma {:induction false} KeepsThrough(A: Matrix, j: nat, anchor: nat, eps: real)
    requires IsMatrix(A) && j < Width(A) && anchor <= |A| && eps >= 0.0
    ensures var p := Column(A, j, anchor, eps);
      var rest := Sweep(A, j + 1, p.anchor, eps);
      var o := Sweep(A, j, anchor, eps);
      p.mat == A ==>
        && o.mat == rest.mat
        && Count(o.steps, IsSwap) == Count(p.steps, IsSwap) + Count(rest.steps, IsSwap)
  {
    var p := Column(A, j, anchor, eps);
    SweepUnfold(A, j, anchor, eps);
    CountAppend(p.steps, Sweep(p.mat, j + 1, p.anchor, eps).steps, IsSwap);
  }

  /** The column loop over an RREF matrix changes nothing and swaps no rows. */
  lemma {:induction false} SweepKeepsRref(A: Matrix, j: nat, anchor: nat, eps: real)
    requires j <= Width(A) && 0.0 <= eps < 1.0 && Reached(A, j, anchor)
    ensures var o := Sweep(A, j, anchor, eps);
      o.mat == A && Count(o.steps, IsSwap) == 0
    decreases Width(A) - j
  {
    if j < Width(A) {
      var p := Column(A, j, anchor, eps);
      ColumnKeepsRref(A, j, anchor, eps);
      SweepKeepsRref(A, j + 1, p.anchor, eps);
      KeepsThrough(A, j, anchor, eps);
    }
  }

  /** Reducing a matrix already in reduced row-echelon form, with any
      tolerance below 1, returns it unchanged and swaps no rows. */
  lemma {:induction false} RrefOfRref(A: Matrix, eps: real)
    requires IsRref(A) && 0.0 <= eps < 1.0
    ensures Rref(A, eps).mat == A
    ensures Count(Rref(A, eps).trace, IsSwap) == 0
  {
    var o := Sweep(A, 0, 0, eps);
    SweepKeepsRref(A, 0, 0, eps);
    CountAppend([Initial(A)] + o.steps, [Final(o.mat)], IsSwap);
    CountAppend([Initial(A)], o.steps, IsSwap);
  }

  /** With a zero tolerance, reducing twice is reducing once. */
  lemma {:induction false} RrefIdempotent(A: Matrix)
    requires IsMatrix(A)
    ensures Rref(Rref(A, 0.0).mat, 0.0).mat == Rref(A, 0.0).mat
  {
    RrefReduces(A);
    RrefOfRref(Rref(A, 0.0).mat, 0.0);
  }

  /** Column 1 of [[5e-7, 2e-6]] pivots on its only row and divides it by
      2e-6. */
  lemma {:induction false} SmallRowPivots()
    ensures Column([[0.0000005, 0.000002]], 1, 0, EPSILON).mat == [[0.25, 1.0]]
  {
    var A: Matrix := [[0.0000005, 0.000002]];
    assert FindPivot(A, 1, 0, EPSILON) == PivotAt(0);
    var N := MultRow(A, 0, 1.0 / 0.000002);
    CellwiseEqual(N, [[0.25, 1.0]]);
    assert EliminateFrom(N, 1, 0, 1) == Run(N, []);
  }

  /** [[5e-7, 2e-6]] reduces to [[0.25, 1]] under the compiled tolerance. */
  lemma {:induction false} SmallRowReduces()
    ensures Rref([[0.0000005, 0.000002]], EPSILON).mat == [[0.25, 1.0]]
  {
    var A: Matrix := [[0.0000005, 0.000002]];
    assert FindPivot(A, 0, 1, EPSILON) == NoPivot;
    assert FindPivot(A, 0, 0, EPSILON) == NoPivot;
    SweepUnfold(A, 0, 0, EPSILON);
    SmallRowPivots();
    SweepUnfold(A, 1, 0, EPSILON);
  }

  /** Column 0 of [[0.25, 1]] pivots on its only row and divides it by 0.25. */
  lemma {:induction false} QuarterRowPivots()
    ensures Column([[0.25, 1.0]], 0, 0, EPSILON).mat == [[1.0, 4.0]]
  {
    var B: Matrix := [[0.25, 1.0]];
    assert FindPivot(B, 0, 0, EPSILON) == PivotAt(0);
    var M := MultRow(B, 0, 1.0 / 0.25);
    CellwiseEqual(M, [[1.0, 4.0]]);
    assert EliminateFrom(M, 0, 0, 1) == Run(M, []);
  }

  /** [[0.25, 1]] reduces to [[1, 4]] under the compiled tolerance. */
  lemma {:induction false} QuarterRowReduces()
    ensures Rref([[0.25, 1.0]], EPSILON).mat == [[1.0, 4.0]]
  {
    var B: Matrix := [[0.25, 1.0]];
    var M: Matrix := [[1.0, 4.0]];
    QuarterRowPivots();
    SweepUnfold(B, 0, 0, EPSILON);
    assert FindPivot(M, 1, 1, EPSILON) == NoPivot;
    SweepUnfold(M, 1, 1, EPSILON);
  }

  /** With the compiled tolerance, reducing twice can differ from reducing
      once: in [[5e-7, 2e-6]] column 0 is within tolerance and skipped, and
      normalising on column 1 grows that entry to 0.25, which the second
      reduction takes as a pivot. */
  lemma {:induction false} RrefTwiceDiffersAtEpsilon()
    ensures var once := Rref([[0.0000005, 0.000002]], EPSILON).mat;
      && once == [[0.25, 1.0]]
      && Rref(once, EPSILON).mat == [[1.0, 4.0]]
      && Rref(once, EPSILON).mat != once
  {
    SmallRowReduces();
    QuarterRowReduces();
    assert [[1.0, 4.0]][0][0] != [[0.25, 1.0]][0][0];
  }
}
