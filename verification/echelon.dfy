/**
 * Reduced row-echelon form, defined on its own terms (independently of the
 * elimination algorithm) so that the algorithm's result can be checked
 * against it.
 */
module Echelon {
  import opened Matrices

  /** Column c of A is the k-th unit vector: 1 in row k, 0 in every other row. */
  predicate UnitColumn(A: Matrix, c: nat, k: nat) {
    forall r :: 0 <= r < |A| ==> c < |A[r]| && A[r][c] == (if r == k then 1.0 else 0.0)
  }

  /** Every entry of the row is zero. */
  predicate ZeroRow(row: seq<real>) {
    forall c :: 0 <= c < |row| ==> row[c] == 0.0
  }

  /** Column of the leading (first nonzero) entry of a row; |row| for a zero row. */
  function Lead(row: seq<real>): (c: nat)
    ensures c <= |row|
    ensures forall i :: 0 <= i < c ==> row[i] == 0.0
    ensures c < |row| ==> row[c] != 0.0
  {
    if |row| == 0 then 0
    else if row[0] != 0.0 then 0
    else 1 + Lead(row[1..])
  }

  /** A row whose entries before column c are zero and whose entry at c is
      nonzero leads at c. */
  lemma LeadAt(row: seq<real>, c: nat)
    requires c < |row| && row[c] != 0.0
    requires forall i :: 0 <= i < c ==> row[i] == 0.0
    ensures Lead(row) == c
  {
  }

  /** A row leads past its end exactly when it is zero. */
  lemma LeadOfZeroRow(row: seq<real>)
    ensures ZeroRow(row) <==> Lead(row) == |row|
  {
  }

  /** Reduced row-echelon form:
      - zero rows come after all nonzero rows;
      - the leading entry of every nonzero row is 1, and it is the only
        nonzero entry of its column;
      - leading entries move strictly to the right going down. */
  predicate IsRref(A: Matrix) {
    && IsMatrix(A)
    && (forall r, s :: 0 <= r < s < |A| && ZeroRow(A[r]) ==> ZeroRow(A[s]))
    && (forall r :: 0 <= r < |A| && !ZeroRow(A[r]) ==> UnitColumn(A, Lead(A[r]), r))
    && (forall r, s :: 0 <= r < s < |A| && !ZeroRow(A[s]) ==> Lead(A[r]) < Lead(A[s]))
  }

  /** Pivot columns, listed in row order: strictly increasing, below `bound`,
      at most one per row, and column P[k] is the k-th unit vector. */
  predicate PivotColumns(A: Matrix, bound: nat, P: seq<nat>) {
    && |P| <= |A|
    && (forall k :: 0 <= k < |P| ==> P[k] < bound && UnitColumn(A, P[k], k))
    && (forall k, l :: 0 <= k < l < |P| ==> P[k] < P[l])
  }

  /** The zero pattern Gauss-Jordan elimination builds over the first j
      columns: rows below the pivot rows are zero there, and each pivot row is
      zero before its own pivot column. */
  predicate ZeroPattern(A: Matrix, j: nat, P: seq<nat>) {
    && (forall r, c :: |P| <= r < |A| && 0 <= c < j && c < |A[r]| ==> A[r][c] == 0.0)
    && (forall k, c :: 0 <= k < |P| && k < |A| && 0 <= c < P[k] && c < |A[k]| ==> A[k][c] == 0.0)
  }

  /** Pivot columns over the whole width together with the zero pattern over
      the whole width imply reduced row-echelon form. */
  lemma {:induction false} PivotsGiveRref(A: Matrix, P: seq<nat>)
    requires IsMatrix(A)
    requires PivotColumns(A, Width(A), P) && ZeroPattern(A, Width(A), P)
    ensures IsRref(A)
  {
    forall r | 0 <= r < |A|
      ensures r < |P| ==> !ZeroRow(A[r]) && Lead(A[r]) == P[r]
      ensures r >= |P| ==> ZeroRow(A[r])
    {
      if r < |P| {
        assert UnitColumn(A, P[r], r);
        assert A[r][P[r]] == 1.0;
        LeadAt(A[r], P[r]);
      } else {
        forall c | 0 <= c < |A[r]|
          ensures A[r][c] == 0.0
        {
          assert |A[r]| == Width(A);
        }
      }
    }
  }
}
