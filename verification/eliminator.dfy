/**
 * The Gauss-Jordan reduction `rref` of main.c: columns left to right, a
 * first-above-tolerance pivot search from the anchor row down, a swap into
 * the anchor row, normalisation of the anchor row, elimination of the pivot
 * column from every other row, and a trace of `Step`s recording each action.
 */
module Eliminator {
  import opened Matrices
  import opened Trace
  import opened Echelon

  /** The tolerance main.c is compiled with; the model takes any eps >= 0. */
  const EPSILON: real := 0.000001

  /** `fabs` on exact reals. */
  function Abs(x: real): real {
    if x < 0.0 then -x else x
  }

  /** Outcome of the pivot search in one column. */
  datatype Pivot = NoPivot | PivotAt(row: nat)

  /** The pivot search of one column: the first row at or below `from` whose
      entry in column j exceeds eps in magnitude. */
  function FindPivot(A: Matrix, j: nat, from: nat, eps: real): (p: Pivot)
    requires IsMatrix(A) && j < Width(A) && from <= |A|
    ensures p.PivotAt? ==> from <= p.row < |A| && Abs(A[p.row][j]) > eps
    ensures p.PivotAt? ==> forall r :: from <= r < p.row ==> Abs(A[r][j]) <= eps
    ensures p.NoPivot? <==> forall r :: from <= r < |A| ==> Abs(A[r][j]) <= eps
    decreases |A| - from
  {
    if from == |A| then NoPivot
    else if Abs(A[from][j]) > eps then PivotAt(from)
    else FindPivot(A, j, from + 1, eps)
  }

  /** A matrix with the steps that produced it. */
  datatype Run = Run(mat: Matrix, steps: seq<Step>)

  /** The elimination loop of one pivot column, from row i on: every row other
      than the anchor gets -A[row][j] times the anchor row added to it, rows in
      increasing order. */
  function EliminateFrom(A: Matrix, j: nat, anchor: nat, i: nat): (r: Run)
    requires IsMatrix(A) && j < Width(A) && anchor < |A| && i <= |A|
    ensures SameShape(A, r.mat)
    decreases |A| - i
  {
    if i == |A| then Run(A, [])
    else if i == anchor then EliminateFrom(A, j, anchor, i + 1)
    else
      var f := -A[i][j];
      var B := AddRow(A, i, anchor, f);
      var rest := EliminateFrom(B, j, anchor, i + 1);
      Run(rest.mat, [Eliminate(anchor, i, j, f, B)] + rest.steps)
  }

  /** What the elimination loop does to the matrix: the anchor row and the
      rows before i stay, and every other row k ends as row k minus A[k][j]
      times the anchor row. */
  lemma {:induction false} EliminateRows(A: Matrix, j: nat, anchor: nat, i: nat)
    requires IsMatrix(A) && j < Width(A) && anchor < |A| && i <= |A|
    ensures var r := EliminateFrom(A, j, anchor, i);
      && r.mat[anchor] == A[anchor]
      && (forall k :: 0 <= k < i ==> r.mat[k] == A[k])
      && (forall k :: i <= k < |A| && k != anchor ==> r.mat[k] == Combine(A[k], -A[k][j], A[anchor]))
    decreases |A| - i
  {
    if i == |A| {
    } else if i == anchor {
      EliminateRows(A, j, anchor, i + 1);
    } else {
      var f := -A[i][j];
      var B := AddRow(A, i, anchor, f);
      EliminateRows(B, j, anchor, i + 1);
    }
  }

  /** The elimination steps are one per row other than the anchor, in
      increasing row order. */
  lemma {:induction false} EliminateOrder(A: Matrix, j: nat, anchor: nat, i: nat)
    requires IsMatrix(A) && j < Width(A) && anchor < |A| && i <= |A|
    ensures EliminationRun(EliminateFrom(A, j, anchor, i).steps, anchor, j, i, |A|)
    decreases |A| - i
  {
    if i == |A| {
    } else if i == anchor {
      assert EliminateFrom(A, j, anchor, i) == EliminateFrom(A, j, anchor, i + 1);
      EliminateOrder(A, j, anchor, i + 1);
    } else {
      var f := -A[i][j];
      var B := AddRow(A, i, anchor, f);
      var rest := EliminateFrom(B, j, anchor, i + 1);
      var steps := [Eliminate(anchor, i, j, f, B)] + rest.steps;
      assert EliminateFrom(A, j, anchor, i).steps == steps;
      EliminateOrder(B, j, anchor, i + 1);
      assert steps[1..] == rest.steps;
    }
  }

  /** Every step of t is an elimination of a row in [i, |A|) whose factor is
      minus that row's entry in column j of A. */
  predicate CancelsColumn(t: seq<Step>, A: Matrix, j: nat, i: nat) {
    forall s :: 0 <= s < |t| ==>
      && t[s].Eliminate? && i <= t[s].row < |A| && j < |A[t[s].row]|
      && t[s].factor == -A[t[s].row][j]
  }

  /** Each elimination factor is minus the row's entry in column j of the
      matrix the loop started from (a row is untouched until its own turn). */
  lemma {:induction false} EliminateFactors(A: Matrix, j: nat, anchor: nat, i: nat)
    requires IsMatrix(A) && j < Width(A) && anchor < |A| && i <= |A|
    ensures CancelsColumn(EliminateFrom(A, j, anchor, i).steps, A, j, i)
    decreases |A| - i
  {
    if i == |A| {
    } else if i == anchor {
      assert EliminateFrom(A, j, anchor, i) == EliminateFrom(A, j, anchor, i + 1);
      EliminateFactors(A, j, anchor, i + 1);
    } else {
      var f := -A[i][j];
      var B := AddRow(A, i, anchor, f);
      var rest := EliminateFrom(B, j, anchor, i + 1);
      var steps := [Eliminate(anchor, i, j, f, B)] + rest.steps;
      assert EliminateFrom(A, j, anchor, i).steps == steps;
      EliminateFactors(B, j, anchor, i + 1);
      assert CancelsColumn(rest.steps, B, j, i + 1);
      forall s | 0 <= s < |steps|
        ensures steps[s].Eliminate? && i <= steps[s].row < |A| && j < |A[steps[s].row]|
        ensures steps[s].factor == -A[steps[s].row][j]
      {
        if s > 0 {
          var st := rest.steps[s - 1];
          assert steps[s] == st && st.Eliminate? && i < st.row < |A|;
          assert B[st.row] == A[st.row];
        }
      }
    }
  }

  /** Replaying the elimination steps from A reproduces every snapshot and
      ends at the loop's result. */
  lemma {:induction false} EliminateReplays(A: Matrix, j: nat, anchor: nat, i: nat)
    requires IsMatrix(A) && j < Width(A) && anchor < |A| && i <= |A|
    ensures var r := EliminateFrom(A, j, anchor, i);
      Replays(A, r.steps) && Replay(A, r.steps) == r.mat
    decreases |A| - i
  {
    if i == |A| {
    } else if i == anchor {
      EliminateReplays(A, j, anchor, i + 1);
    } else {
      var f := -A[i][j];
      var B := AddRow(A, i, anchor, f);
      var rest := EliminateFrom(B, j, anchor, i + 1);
      var steps := [Eliminate(anchor, i, j, f, B)] + rest.steps;
      EliminateReplays(B, j, anchor, i + 1);
      assert steps[1..] == rest.steps;
    }
  }

  /** What processing one column leaves behind: the matrix, the anchor for the
      next column, the steps emitted, and the column if it got a pivot. */
  datatype Outcome = Outcome(mat: Matrix, anchor: nat, steps: seq<Step>, pivots: seq<nat>)

  /** A pivoted column (main.c:78-116): the pivot row a is swapped into the
      anchor row (a swap step only when they differ), the anchor row is
      divided by the pivot, and the column is cleared in every other row. */
  function Pivoted(A: Matrix, j: nat, anchor: nat, a: nat): (o: Outcome)
    requires IsMatrix(A) && j < Width(A) && anchor <= a < |A| && A[a][j] != 0.0
    ensures SameShape(A, o.mat)
    ensures o.anchor == anchor + 1 && o.pivots == [j]
    ensures UnitColumn(o.mat, j, anchor)
  {
    var S := SwapRows(A, a, anchor);
    var moved := if a != anchor then [Swap(a, anchor, S)] else [];
    var f := 1.0 / S[anchor][j];
    var N := MultRow(S, anchor, f);
    NormalizeMakesOne(S, anchor, j);
    var E := EliminateFrom(N, j, anchor, 0);
    EliminateClears(N, j, anchor);
    Outcome(E.mat, anchor + 1, moved + [Normalize(anchor, f, N)] + E.steps, [j])
  }

  /** Dividing row r by its own nonzero entry in column j makes that entry 1. */
  lemma {:induction false} NormalizeMakesOne(S: Matrix, r: nat, j: nat)
    requires IsMatrix(S) && r < |S| && j < Width(S) && S[r][j] != 0.0
    ensures MultRow(S, r, 1.0 / S[r][j])[r][j] == 1.0
  {
    var x := S[r][j];
    assert (1.0 / x) * x == 1.0;
  }

  /** Once the anchor row holds 1 in column j, the elimination loop turns
      column j into the unit vector of the anchor row. */
  lemma {:induction false} EliminateClears(N: Matrix, j: nat, anchor: nat)
    requires IsMatrix(N) && j < Width(N) && anchor < |N| && N[anchor][j] == 1.0
    ensures UnitColumn(EliminateFrom(N, j, anchor, 0).mat, j, anchor)
  {
    var M := EliminateFrom(N, j, anchor, 0).mat;
    EliminateRows(N, j, anchor, 0);
    forall r | 0 <= r < |N|
      ensures j < |M[r]| && M[r][j] == (if r == anchor then 1.0 else 0.0)
    {
      if r != anchor {
        assert M[r] == Combine(N[r], -N[r][j], N[anchor]);
        assert M[r][j] == N[r][j] + -N[r][j] * 1.0;
      }
    }
  }

  /** One iteration of the column loop of `rref` (main.c:73-119). */
  function Column(A: Matrix, j: nat, anchor: nat, eps: real): (o: Outcome)
    requires IsMatrix(A) && j < Width(A) && anchor <= |A| && eps >= 0.0
    ensures SameShape(A, o.mat)
    ensures o.anchor == anchor + |o.pivots| <= |A|
    ensures o.pivots == [] <==> forall r :: anchor <= r < |A| ==> Abs(A[r][j]) <= eps
    ensures o.pivots == [] ==> o.mat == A && o.steps == [Skip(j)]
    ensures o.pivots != [] ==> o.pivots == [j] && UnitColumn(o.mat, j, anchor)
  {
    match FindPivot(A, j, anchor, eps)
    case NoPivot => Outcome(A, anchor, [Skip(j)], [])
    case PivotAt(a) => Pivoted(A, j, anchor, a)
  }

  /** Which row a pivoted column brings up: the first row at or below the
      anchor above tolerance (FindPivot's row a). The column's first step is a
      swap exactly when a is not the anchor row, and then it swaps row a in;
      the anchor row ends as row a divided by its pivot entry. */
  lemma {:induction false} ColumnPivotRow(A: Matrix, j: nat, anchor: nat, eps: real)
    requires IsMatrix(A) && j < Width(A) && anchor <= |A| && eps >= 0.0
    ensures var o := Column(A, j, anchor, eps);
      var pv := FindPivot(A, j, anchor, eps);
      && (o.pivots != [] <==> pv.PivotAt?)
      && (pv.PivotAt? ==>
           var a := pv.row;
           && |o.steps| > 0
           && (o.steps[0].Swap? <==> a != anchor)
           && (o.steps[0].Swap? ==> o.steps[0].row == a)
           && o.mat[anchor] == Scale(1.0 / A[a][j], A[a]))
  {
    match FindPivot(A, j, anchor, eps)
    case NoPivot =>
    case PivotAt(a) =>
      var S := SwapRows(A, a, anchor);
      var f := 1.0 / S[anchor][j];
      var N := MultRow(S, anchor, f);
      EliminateRows(N, j, anchor, 0);
  }

  /** Replaying the steps of a pivoted column from A reproduces each
      snapshot and ends at the column's result. */
  lemma {:induction false} PivotedReplays(A: Matrix, j: nat, anchor: nat, a: nat)
    requires IsMatrix(A) && j < Width(A) && anchor <= a < |A| && A[a][j] != 0.0
    ensures var o := Pivoted(A, j, anchor, a);
      Replays(A, o.steps) && Replay(A, o.steps) == o.mat
  {
    var S := SwapRows(A, a, anchor);
    var moved := if a != anchor then [Swap(a, anchor, S)] else [];
    var f := 1.0 / S[anchor][j];
    var N := MultRow(S, anchor, f);
    var E := EliminateFrom(N, j, anchor, 0);
    var norm := [Normalize(anchor, f, N)];
    assert Pivoted(A, j, anchor, a).steps == moved + norm + E.steps;
    if a != anchor {
      ReplaysOne(A, Swap(a, anchor, S));
    }
    ReplaysOne(S, Normalize(anchor, f, N));
    ReplayAppend(A, moved, norm);
    EliminateReplays(N, j, anchor, 0);
    ReplayAppend(A, moved + norm, E.steps);
  }

  /** Replaying the steps of a column from A reproduces each snapshot and
      ends at the column's result. */
  lemma {:induction false} ColumnReplays(A: Matrix, j: nat, anchor: nat, eps: real)
    requires IsMatrix(A) && j < Width(A) && anchor <= |A| && eps >= 0.0
    ensures var o := Column(A, j, anchor, eps);
      Replays(A, o.steps) && Replay(A, o.steps) == o.mat
  {
    match FindPivot(A, j, anchor, eps)
    case NoPivot =>
      ReplaysOne(A, Skip(j));
    case PivotAt(a) =>
      PivotedReplays(A, j, anchor, a);
  }

  /** Where the parts of a pivoted column's steps sit once the steps of later
      columns follow them: the optional swap, the normalisation at index s,
      the eliminations, and the rest. */
  lemma {:induction false} PivotedLayout(moved: seq<Step>, norm: Step, elims: seq<Step>, rest: seq<Step>)
    requires |moved| <= 1
    ensures var t := moved + [norm] + elims + rest; var s := |moved|;
      && |t| == s + 1 + |elims| + |rest|
      && (s == 1 ==> t[0] == moved[0])
      && (s == 0 && |t| > 0 ==> t[0] == norm)
      && t[s] == norm
      && t[s + 1..s + 1 + |elims|] == elims
      && t[s + 1 + |elims|..] == rest
  {
    var t := moved + [norm] + elims + rest;
    var s := |moved|;
    assert t[s + 1..] == elims + rest;
  }

  /** The steps of a pivoted column followed by a well-formed rest form a
      well-formed column part from column j on. */
  lemma {:induction false} PivotedBlocks(A: Matrix, j: nat, anchor: nat, a: nat, rest: seq<Step>, P: seq<nat>)
    requires IsMatrix(A) && j < Width(A) && anchor <= a < |A| && A[a][j] != 0.0
    requires Blocks(rest, j + 1, anchor + 1, |A|, Width(A), P)
    ensures Blocks(Pivoted(A, j, anchor, a).steps + rest, j, anchor, |A|, Width(A), [j] + P)
  {
    var S := SwapRows(A, a, anchor);
    var moved := if a != anchor then [Swap(a, anchor, S)] else [];
    var f := 1.0 / S[anchor][j];
    var N := MultRow(S, anchor, f);
    var E := EliminateFrom(N, j, anchor, 0);
    var norm := Normalize(anchor, f, N);
    assert Pivoted(A, j, anchor, a).steps == moved + [norm] + E.steps;
    EliminateOrder(N, j, anchor, 0);
    EliminationRunCounts(E.steps, anchor, j, 0, |A|);
    PivotedLayout(moved, norm, E.steps, rest);
    assert ([j] + P)[0] == j && ([j] + P)[1..] == P;
  }

  /** The steps of one column followed by a well-formed rest form a
      well-formed column part from column j on. */
  lemma {:induction false} ColumnBlocks(A: Matrix, j: nat, anchor: nat, eps: real, rest: seq<Step>, P: seq<nat>)
    requires IsMatrix(A) && j < Width(A) && anchor <= |A| && eps >= 0.0
    requires Blocks(rest, j + 1, Column(A, j, anchor, eps).anchor, |A|, Width(A), P)
    ensures var o := Column(A, j, anchor, eps);
      Blocks(o.steps + rest, j, anchor, |A|, Width(A), o.pivots + P)
  {
    var o := Column(A, j, anchor, eps);
    match FindPivot(A, j, anchor, eps)
    case NoPivot =>
      var t := o.steps + rest;
      assert t[0] == Skip(j) && t[1..] == rest && o.pivots + P == P;
    case PivotAt(a) =>
      PivotedBlocks(A, j, anchor, a, rest, P);
  }

  /** Column c is zero in every row from `anchor` down. */
  predicate ZeroBelow(A: Matrix, c: nat, anchor: nat) {
    forall r :: anchor <= r < |A| ==> c < |A[r]| && A[r][c] == 0.0
  }

  /** A pivoted column leaves alone every column that is zero from the anchor
      row down: the swap only exchanges rows at or below the anchor, and the
      anchor row contributes 0 to such a column. */
  lemma {:induction false} PivotedFreezes(A: Matrix, j: nat, anchor: nat, a: nat, c: nat)
    requires IsMatrix(A) && j < Width(A) && anchor <= a < |A| && A[a][j] != 0.0
    requires c < Width(A) && ZeroBelow(A, c, anchor)
    ensures var M := Pivoted(A, j, anchor, a).mat;
      forall r :: 0 <= r < |A| ==> M[r][c] == A[r][c]
  {
    var S := SwapRows(A, a, anchor);
    var f := 1.0 / S[anchor][j];
    var N := MultRow(S, anchor, f);
    var E := EliminateFrom(N, j, anchor, 0);
    assert Pivoted(A, j, anchor, a).mat == E.mat;
    EliminateRows(N, j, anchor, 0);
    assert forall r :: 0 <= r < |A| ==> S[r][c] == A[r][c];
    assert N[anchor][c] == 0.0;
    forall r | 0 <= r < |A|
      ensures E.mat[r][c] == A[r][c]
    {
      if r != anchor {
        assert E.mat[r] == Combine(N[r], -N[r][j], N[anchor]);
        assert N[r] == S[r];
      }
    }
  }

  /** Processing column j leaves alone every column that is zero from the
      anchor row down; in particular every earlier pivot column. */
  lemma {:induction false} ColumnFreezes(A: Matrix, j: nat, anchor: nat, eps: real, c: nat)
    requires IsMatrix(A) && j < Width(A) && anchor <= |A| && eps >= 0.0
    requires c < Width(A) && ZeroBelow(A, c, anchor)
    ensures var M := Column(A, j, anchor, eps).mat;
      forall r :: 0 <= r < |A| ==> M[r][c] == A[r][c]
  {
    match FindPivot(A, j, anchor, eps)
    case NoPivot =>
    case PivotAt(a) =>
      PivotedFreezes(A, j, anchor, a, c);
  }

  /** The column loop of `rref` from column j on, with the next pivot due in
      row `anchor` (main.c:71-126). The C test `anchor > m`, made right after
      the anchor moves, is made here before the next column instead; a
      skipped column leaves the anchor unchanged, so the two agree. */
  function Sweep(A: Matrix, j: nat, anchor: nat, eps: real): (o: Outcome)
    requires IsMatrix(A) && j <= Width(A) && eps >= 0.0
    ensures SameShape(A, o.mat)
    ensures o.anchor == anchor + |o.pivots|
    ensures |o.pivots| <= Width(A) - j
    decreases Width(A) - j
  {
    if j == Width(A) || anchor > |A| then Outcome(A, anchor, [], [])
    else
      var p := Column(A, j, anchor, eps);
      var rest := Sweep(p.mat, j + 1, p.anchor, eps);
      Outcome(rest.mat, rest.anchor, p.steps + rest.steps, p.pivots + rest.pivots)
  }

  /** With the anchor in range, the column loop from j is column j followed
      by the loop from j + 1. */
  lemma {:induction false} SweepUnfold(A: Matrix, j: nat, anchor: nat, eps: real)
    requires IsMatrix(A) && j < Width(A) && anchor <= |A| && eps >= 0.0
    ensures var p := Column(A, j, anchor, eps);
      var rest := Sweep(p.mat, j + 1, p.anchor, eps);
      Sweep(A, j, anchor, eps) == Outcome(rest.mat, rest.anchor, p.steps + rest.steps, p.pivots + rest.pivots)
  {
  }

  lemma {:induction false} AppendNil(P: seq<nat>)
    ensures P + [] == P
  {
  }

  lemma {:induction false} AppendAssoc(P: seq<nat>, a: seq<nat>, b: seq<nat>)
    ensures P + (a + b) == (P + a) + b
  {
  }

  /** After column j the matrix keeps its shape and the anchor stays within
      its rows, so the loop can go on from column j + 1. */
  lemma {:induction false} ColumnShape(A: Matrix, j: nat, anchor: nat, eps: real)
    requires IsMatrix(A) && j < Width(A) && anchor <= |A| && eps >= 0.0
    ensures var p := Column(A, j, anchor, eps);
      && IsMatrix(p.mat) && |p.mat| == |A| && Width(p.mat) == Width(A)
      && j + 1 <= Width(p.mat) && p.anchor <= |p.mat|
  {
  }

  /** A column followed by a loop from j + 1 whose steps have the shape
      `Blocks` describes makes a loop from j whose steps have it too. */
  lemma {:induction false} BlocksThrough(A: Matrix, j: nat, anchor: nat, eps: real)
    requires IsMatrix(A) && j < Width(A) && anchor <= |A| && eps >= 0.0
    requires var p := Column(A, j, anchor, eps);
      var rest := Sweep(p.mat, j + 1, p.anchor, eps);
      Blocks(rest.steps, j + 1, p.anchor, |p.mat|, Width(p.mat), rest.pivots)
    ensures var o := Sweep(A, j, anchor, eps);
      Blocks(o.steps, j, anchor, |A|, Width(A), o.pivots)
  {
    var p := Column(A, j, anchor, eps);
    var rest := Sweep(p.mat, j + 1, p.anchor, eps);
    SweepUnfold(A, j, anchor, eps);
    assert |p.mat| == |A| && Width(p.mat) == Width(A);
    ColumnBlocks(A, j, anchor, eps, rest.steps, rest.pivots);
  }

  /** The steps of the column loop have the shape `Blocks` describes. */
  lemma {:induction false} SweepBlocks(A: Matrix, j: nat, anchor: nat, eps: real)
    requires IsMatrix(A) && j <= Width(A) && anchor <= |A| && eps >= 0.0
    ensures var o := Sweep(A, j, anchor, eps);
      Blocks(o.steps, j, anchor, |A|, Width(A), o.pivots)
    decreases Width(A) - j
  {
    if j < Width(A) {
      var p := Column(A, j, anchor, eps);
      ColumnShape(A, j, anchor, eps);
      SweepBlocks(p.mat, j + 1, p.anchor, eps);
      BlocksThrough(A, j, anchor, eps);
    }
  }

  /** Replaying the steps of the column loop from A reproduces each snapshot
      and ends at the loop's result. */
  lemma {:induction false} SweepReplays(A: Matrix, j: nat, anchor: nat, eps: real)
    requires IsMatrix(A) && j <= Width(A) && anchor <= |A| && eps >= 0.0
    ensures var o := Sweep(A, j, anchor, eps);
      Replays(A, o.steps) && Replay(A, o.steps) == o.mat
    decreases Width(A) - j
  {
    if j < Width(A) {
      var p := Column(A, j, anchor, eps);
      SweepUnfold(A, j, anchor, eps);
      ColumnReplays(A, j, anchor, eps);
      SweepReplays(p.mat, j + 1, p.anchor, eps);
      var rest := Sweep(p.mat, j + 1, p.anchor, eps);
      ReplayAppend(A, p.steps, rest.steps);
    }
  }

  /** Once the anchor has reached the last row, no column finds a pivot: the
      loop only skips, and the matrix is left as it is. */
  lemma {:induction false} ExhaustedRowsSkip(A: Matrix, j: nat, eps: real)
    requires IsMatrix(A) && j <= Width(A) && eps >= 0.0
    ensures var o := Sweep(A, j, |A|, eps);
      && o.mat == A && o.anchor == |A| && o.pivots == []
      && |o.steps| == Width(A) - j
      && forall t :: 0 <= t < |o.steps| ==> o.steps[t] == Skip(j + t)
    decreases Width(A) - j
  {
    if j < Width(A) {
      var p := Column(A, j, |A|, eps);
      assert p.pivots == [];
      ExhaustedRowsSkip(A, j + 1, eps);
      var rest := Sweep(A, j + 1, |A|, eps);
      var steps := [Skip(j)] + rest.steps;
      assert Sweep(A, j, |A|, eps).steps == steps;
      forall t | 0 <= t < |steps|
        ensures steps[t] == Skip(j + t)
      {
        if t > 0 {
          assert steps[t] == rest.steps[t - 1];
        }
      }
    }
  }

  /** The anchor never passes the last row (so the `anchor > m` exit never
      fires), never passes the number of columns, and every column from j on
      is processed: each one is skipped or pivoted. */
  lemma {:induction false} SweepAnchor(A: Matrix, j: nat, anchor: nat, eps: real)
    requires IsMatrix(A) && j <= Width(A) && anchor <= |A| && anchor <= j && eps >= 0.0
    ensures var o := Sweep(A, j, anchor, eps);
      && anchor <= o.anchor <= |A| && o.anchor <= Width(A)
      && Count(o.steps, IsSkip) + |o.pivots| == Width(A) - j
  {
    var o := Sweep(A, j, anchor, eps);
    SweepBlocks(A, j, anchor, eps);
    BlocksCount(o.steps, j, anchor, |A|, Width(A), o.pivots);
  }

  /** One column keeps the pivot columns found so far (each is zero below the
      pivot rows, so the column leaves it alone) and adds its own. */
  lemma {:induction false} ColumnPivots(A: Matrix, j: nat, P: seq<nat>, eps: real)
    requires IsMatrix(A) && j < Width(A) && eps >= 0.0 && PivotColumns(A, j, P)
    ensures |P| <= |A|
    ensures var p := Column(A, j, |P|, eps);
      && IsMatrix(p.mat) && Width(p.mat) == Width(A) && j + 1 <= Width(p.mat)
      && PivotColumns(p.mat, j + 1, P + p.pivots)
  {
    var p := Column(A, j, |P|, eps);
    var Q := P + p.pivots;
    forall k | 0 <= k < |P|
      ensures UnitColumn(p.mat, P[k], k)
    {
      assert UnitColumn(A, P[k], k);
      assert ZeroBelow(A, P[k], |P|);
      ColumnFreezes(A, j, |P|, eps, P[k]);
    }
    assert forall k :: 0 <= k < |P| ==> Q[k] == P[k];
  }

  /** With the pivot columns so far listed in P (so the anchor is |P|), the
      column loop from j is column j followed by the loop from j + 1. */
  lemma {:induction false} SweepStep(A: Matrix, j: nat, P: seq<nat>, eps: real)
    requires IsMatrix(A) && j < Width(A) && |P| <= |A| && eps >= 0.0
    ensures var p := Column(A, j, |P|, eps);
      var Q := P + p.pivots;
      var rest := Sweep(p.mat, j + 1, |Q|, eps);
      var o := Sweep(A, j, |P|, eps);
      o.mat == rest.mat && P + o.pivots == Q + rest.pivots
  {
    var p := Column(A, j, |P|, eps);
    var rest := Sweep(p.mat, j + 1, p.anchor, eps);
    SweepUnfold(A, j, |P|, eps);
    AppendAssoc(P, p.pivots, rest.pivots);
    assert |P + p.pivots| == p.anchor;
  }

  /** Pivot columns established by the loop from j + 1 on are those of the
      loop from j. */
  lemma {:induction false} PivotsThrough(A: Matrix, j: nat, P: seq<nat>, eps: real)
    requires IsMatrix(A) && j < Width(A) && |P| <= |A| && eps >= 0.0
    requires var p := Column(A, j, |P|, eps);
      var Q := P + p.pivots;
      var rest := Sweep(p.mat, j + 1, |Q|, eps);
      PivotColumns(rest.mat, Width(p.mat), Q + rest.pivots)
    ensures var o := Sweep(A, j, |P|, eps);
      PivotColumns(o.mat, Width(A), P + o.pivots)
  {
    SweepStep(A, j, P, eps);
  }

  /** The zero pattern established by the loop from j + 1 on is that of the
      loop from j. */
  lemma {:induction false} PatternThrough(A: Matrix, j: nat, P: seq<nat>)
    requires IsMatrix(A) && j < Width(A) && |P| <= |A|
    requires var p := Column(A, j, |P|, 0.0);
      var Q := P + p.pivots;
      var rest := Sweep(p.mat, j + 1, |Q|, 0.0);
      ZeroPattern(rest.mat, Width(p.mat), Q + rest.pivots)
    ensures var o := Sweep(A, j, |P|, 0.0);
      ZeroPattern(o.mat, Width(A), P + o.pivots)
  {
    SweepStep(A, j, P, 0.0);
  }

  /** Pivot columns are kept, strictly increasing and unit vectors, through
      the whole column loop. */
  lemma {:induction false} SweepPivots(A: Matrix, j: nat, P: seq<nat>, eps: real)
    requires IsMatrix(A) && j <= Width(A) && eps >= 0.0 && PivotColumns(A, j, P)
    ensures var o := Sweep(A, j, |P|, eps);
      PivotColumns(o.mat, Width(A), P + o.pivots)
    decreases Width(A) - j
  {
    if j == Width(A) {
      AppendNil(P);
    } else {
      var p := Column(A, j, |P|, eps);
      ColumnPivots(A, j, P, eps);
      SweepPivots(p.mat, j + 1, P + p.pivots, eps);
      PivotsThrough(A, j, P, eps);
    }
  }

  /** With a zero tolerance, one column extends the zero pattern by one
      column: the columns before j are zero below the pivot rows, so the
      column leaves them alone, and column j is either zero below the pivot
      rows (skipped) or becomes a unit column (pivoted). */
  lemma {:induction false} ColumnPattern(A: Matrix, j: nat, P: seq<nat>)
    requires IsMatrix(A) && j < Width(A) && PivotColumns(A, j, P) && ZeroPattern(A, j, P)
    ensures var p := Column(A, j, |P|, 0.0);
      ZeroPattern(p.mat, j + 1, P + p.pivots)
  {
    var p := Column(A, j, |P|, 0.0);
    var M := p.mat;
    forall r, c | 0 <= r < |A| && 0 <= c < j
      ensures M[r][c] == A[r][c]
    {
      assert ZeroBelow(A, c, |P|);
      ColumnFreezes(A, j, |P|, 0.0, c);
    }
    if p.pivots == [] {
      assert forall r :: |P| <= r < |A| ==> Abs(A[r][j]) <= 0.0;
      assert P + p.pivots == P;
    } else {
      var Q := P + p.pivots;
      assert forall k :: 0 <= k < |P| ==> Q[k] == P[k];
      assert Q[|P|] == j && |Q| == |P| + 1;
    }
  }

  /** With a zero tolerance the column loop builds the full zero pattern. */
  lemma {:induction false} SweepPattern(A: Matrix, j: nat, P: seq<nat>)
    requires IsMatrix(A) && j <= Width(A) && PivotColumns(A, j, P) && ZeroPattern(A, j, P)
    ensures var o := Sweep(A, j, |P|, 0.0);
      ZeroPattern(o.mat, Width(A), P + o.pivots)
    decreases Width(A) - j
  {
    if j == Width(A) {
      AppendNil(P);
    } else {
      var p := Column(A, j, |P|, 0.0);
      ColumnPivots(A, j, P, 0.0);
      ColumnPattern(A, j, P);
      SweepPattern(p.mat, j + 1, P + p.pivots);
      PatternThrough(A, j, P);
    }
  }

  /** The result of `rref`: the reduced matrix, the derivation trace, and the
      pivot columns in row order (pivot k sits in row k). */
  datatype Reduction = Reduction(mat: Matrix, trace: seq<Step>, pivots: seq<nat>)

  /** `rref` (main.c:58-135) with tolerance eps: the initial snapshot, the
      column loop from column 0 with the anchor at row 0, the final snapshot. */
  function Rref(A: Matrix, eps: real): (r: Reduction)
    requires IsMatrix(A) && eps >= 0.0
    ensures SameShape(A, r.mat)
    ensures |r.trace| >= 2 && r.trace[0] == Initial(A) && r.trace[|r.trace| - 1] == Final(r.mat)
    // every snapshot is what the narrated operation makes of the one before
    ensures Replays(A, r.trace) && Replay(A, r.trace) == r.mat
    // pivot columns: increasing, at most one per row, each a unit column
    ensures PivotColumns(r.mat, Width(A), r.pivots)
  {
    var o := Sweep(A, 0, 0, eps);
    SweepReplays(A, 0, 0, eps);
    SweepPivots(A, 0, [], eps);
    assert [] + o.pivots == o.pivots;
    WrapReplays(A, o.steps, o.mat);
    Reduction(o.mat, [Initial(A)] + o.steps + [Final(o.mat)], o.pivots)
  }

  /** The shape of the trace of `rref`: Initial, one block per column, Final;
      hence its length is 2 + swaps + skipped columns + m per pivoted column,
      and every column is processed (the early exit never happens). */
  lemma {:induction false} RrefTrace(A: Matrix, eps: real)
    requires IsMatrix(A) && eps >= 0.0
    ensures var r := Rref(A, eps);
      && Blocks(r.trace[1..|r.trace| - 1], 0, 0, |A|, Width(A), r.pivots)
      && |r.trace| == 2 + Count(r.trace, IsSwap) + Count(r.trace, IsSkip) + |A| * Count(r.trace, IsNormalize)
      && Count(r.trace, IsNormalize) == |r.pivots|
      && Count(r.trace, IsSkip) + |r.pivots| == Width(A)
      && Count(r.trace, IsEliminate) == (|A| - 1) * |r.pivots|
  {
    var o := Sweep(A, 0, 0, eps);
    SweepBlocks(A, 0, 0, eps);
    WrapCounts(A, o.steps, o.mat, o.pivots);
  }

  /** With a zero tolerance, `rref` returns a matrix in reduced row-echelon
      form. */
  lemma {:induction false} RrefReduces(A: Matrix)
    requires IsMatrix(A)
    ensures IsRref(Rref(A, 0.0).mat)
  {
    var o := Sweep(A, 0, 0, 0.0);
    SweepPivots(A, 0, [], 0.0);
    SweepPattern(A, 0, []);
    assert [] + o.pivots == o.pivots;
    PivotsGiveRref(o.mat, o.pivots);
  }

  /** Wrapping the column part in Initial and Final keeps the replay honest. */
  lemma {:induction false} WrapReplays(A: Matrix, steps: seq<Step>, M: Matrix)
    requires Replays(A, steps) && Replay(A, steps) == M
    ensures var trace := [Initial(A)] + steps + [Final(M)];
      Replays(A, trace) && Replay(A, trace) == M
  {
    ReplaysOne(A, Initial(A));
    ReplaysOne(M, Final(M));
    ReplayAppend(A, [Initial(A)], steps);
    ReplayAppend(A, [Initial(A)] + steps, [Final(M)]);
  }

  /** Wrapping the column part in Initial and Final adds two steps and keeps
      every count. */
  lemma {:induction false} WrapCounts(A: Matrix, steps: seq<Step>, M: Matrix, P: seq<nat>)
    requires IsMatrix(A) && Blocks(steps, 0, 0, |A|, Width(A), P)
    ensures var trace := [Initial(A)] + steps + [Final(M)];
      && trace[1..|trace| - 1] == steps
      && |trace| == 2 + Count(trace, IsSwap) + Count(trace, IsSkip) + |A| * Count(trace, IsNormalize)
      && Count(trace, IsNormalize) == |P|
      && Count(trace, IsSkip) + |P| == Width(A)
      && Count(trace, IsEliminate) == (|A| - 1) * |P|
  {
    var trace := [Initial(A)] + steps + [Final(M)];
    assert trace[1..|trace| - 1] == steps;
    BlocksCount(steps, 0, 0, |A|, Width(A), P);
    BlocksEliminations(steps, 0, 0, |A|, Width(A), P);
    WrapCount(A, steps, M, IsSwap);
    WrapCount(A, steps, M, IsSkip);
    WrapCount(A, steps, M, IsNormalize);
    WrapCount(A, steps, M, IsEliminate);
  }

  lemma {:induction false} WrapCount(A: Matrix, steps: seq<Step>, M: Matrix, p: Step -> bool)
    requires !p(Initial(A)) && !p(Final(M))
    ensures Count([Initial(A)] + steps + [Final(M)], p) == Count(steps, p)
  {
    CountAppend([Initial(A)] + steps, [Final(M)], p);
    CountAppend([Initial(A)], steps, p);
  }
}
