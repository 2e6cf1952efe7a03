/**
 * The derivation written by `rref` in main.c, as data. Each `fprintf` that
 * narrates an action, together with the `texmatrix` snapshot printed after
 * it, is one `Step`.
 */
module Trace {
  import opened Matrices

  /** One narrated action. Rows and columns are 0-based here; the C text
      prints them 1-based. */
  datatype Step =
    | Initial(snapshot: Matrix)                                  // "We begin with our original matrix"
    | Swap(row: nat, anchor: nat, snapshot: Matrix)              // rows `row` and `anchor` swapped
    | Skip(col: nat)                                             // no pivot in column `col`; no snapshot
    | Normalize(anchor: nat, factor: real, snapshot: Matrix)     // anchor row multiplied by `factor`
    | Eliminate(anchor: nat, row: nat, col: nat, factor: real, snapshot: Matrix) // `factor` * anchor row added to `row`, clearing column `col`
    | Final(snapshot: Matrix)                                    // "our matrix in its RREF form"

  predicate IsSwap(s: Step) { s.Swap? }
  predicate IsSkip(s: Step) { s.Skip? }
  predicate IsNormalize(s: Step) { s.Normalize? }
  predicate IsEliminate(s: Step) { s.Eliminate? }

  /** Step s, taken when the matrix is A, is honest: its snapshot is what the
      row operation it narrates makes of A. */
  predicate Narrates(A: Matrix, s: Step) {
    match s
    case Initial(S) => S == A
    case Swap(a, b, S) => IsMatrix(A) && a < |A| && b < |A| && S == SwapRows(A, a, b)
    case Skip(_) => true
    case Normalize(r, c, S) => IsMatrix(A) && r < |A| && S == MultRow(A, r, c)
    case Eliminate(r, i, _, c, S) => IsMatrix(A) && r < |A| && i < |A| && S == AddRow(A, i, r, c)
    case Final(S) => S == A
  }

  /** The matrix after step s (a skip leaves it as it was). */
  function After(A: Matrix, s: Step): Matrix {
    if s.Skip? then A else s.snapshot
  }

  /** The matrix after the whole trace t, starting from A. */
  function Replay(A: Matrix, t: seq<Step>): Matrix
    decreases |t|
  {
    if |t| == 0 then A else Replay(After(A, t[0]), t[1..])
  }

  /** Every step of t, taken in order from A, is honest. */
  predicate Replays(A: Matrix, t: seq<Step>)
    decreases |t|
  {
    |t| == 0 || (Narrates(A, t[0]) && Replays(After(A, t[0]), t[1..]))
  }

  /** A single honest step replays to the matrix after it. */
  lemma {:induction false} ReplaysOne(A: Matrix, s: Step)
    requires Narrates(A, s)
    ensures Replays(A, [s]) && Replay(A, [s]) == After(A, s)
  {
    assert [s][1..] == [];
  }

  /** Replaying a concatenation replays the parts in turn. */
  lemma {:induction false} ReplayAppend(A: Matrix, t: seq<Step>, u: seq<Step>)
    ensures Replay(A, t + u) == Replay(Replay(A, t), u)
    ensures Replays(A, t + u) <==> Replays(A, t) && Replays(Replay(A, t), u)
    decreases |t|
  {
    if |t| == 0 {
      assert t + u == u;
    } else {
      assert (t + u)[1..] == t[1..] + u;
      ReplayAppend(After(A, t[0]), t[1..], u);
    }
  }

  /** Number of steps of t satisfying p. */
  function Count(t: seq<Step>, p: Step -> bool): (k: nat)
    ensures k <= |t|
    decreases |t|
  {
    if |t| == 0 then 0 else (if p(t[0]) then 1 else 0) + Count(t[1..], p)
  }

  lemma {:induction false} CountAppend(t: seq<Step>, u: seq<Step>, p: Step -> bool)
    ensures Count(t + u, p) == Count(t, p) + Count(u, p)
    decreases |t|
  {
    if |t| == 0 {
      assert t + u == u;
    } else {
      assert (t + u)[1..] == t[1..] + u;
      CountAppend(t[1..], u, p);
    }
  }

  /** The elimination steps of pivot column `col`: for rows i, i+1, ..., m-1
      in increasing order, skipping the anchor row, one `Eliminate` by the
      anchor that clears column `col`. */
  predicate EliminationRun(t: seq<Step>, anchor: nat, col: nat, i: nat, m: nat)
    decreases m - i
  {
    if i >= m then t == []
    else if i == anchor then EliminationRun(t, anchor, col, i + 1, m)
    else
      && |t| > 0 && t[0].Eliminate? && t[0].anchor == anchor && t[0].row == i && t[0].col == col
      && EliminationRun(t[1..], anchor, col, i + 1, m)
  }

  /** The column part of a trace of an m x n reduction, from column j with the
      next pivot due in row `anchor`; P lists the pivot columns. Each column
      contributes either one `Skip`, or an optional `Swap` of a lower row into
      the anchor row, one `Normalize` of the anchor row and the m - 1
      eliminations of an `EliminationRun`, after which the anchor moves down. */
  predicate Blocks(t: seq<Step>, j: nat, anchor: nat, m: nat, n: nat, P: seq<nat>)
    decreases n - j
  {
    if j >= n then t == [] && P == []
    else if |t| > 0 && t[0].Skip? then
      t[0].col == j && Blocks(t[1..], j + 1, anchor, m, n, P)
    else
      var s := if |t| > 0 && t[0].Swap? then 1 else 0;
      && anchor < m && |t| >= s + m
      && (s == 1 ==> t[0].anchor == anchor && anchor < t[0].row < m)
      && t[s].Normalize? && t[s].anchor == anchor
      && EliminationRun(t[s + 1..s + m], anchor, j, 0, m)
      && |P| > 0 && P[0] == j
      && Blocks(t[s + m..], j + 1, anchor + 1, m, n, P[1..])
  }

  /** An elimination run over rows [i, m) holds one step per row other than
      the anchor, and nothing but eliminations. */
  lemma {:induction false} EliminationRunCounts(t: seq<Step>, anchor: nat, col: nat, i: nat, m: nat)
    requires i <= m && EliminationRun(t, anchor, col, i, m)
    ensures |t| == (m - i) - (if i <= anchor < m then 1 else 0)
    ensures Count(t, IsSwap) == 0 && Count(t, IsSkip) == 0 && Count(t, IsNormalize) == 0
    ensures Count(t, IsEliminate) == |t|
    decreases m - i
  {
    if i == m {
    } else if i == anchor {
      EliminationRunCounts(t, anchor, col, i + 1, m);
    } else {
      EliminationRunCounts(t[1..], anchor, col, i + 1, m);
    }
  }

  /** Counting a non-empty trace from its first step. */
  lemma {:induction false} CountHead(t: seq<Step>, s: nat, p: Step -> bool)
    requires s < |t|
    ensures Count(t[s..], p) == (if p(t[s]) then 1 else 0) + Count(t[s + 1..], p)
  {
    var tail := t[s..];
    assert tail[0] == t[s] && tail[1..] == t[s + 1..];
  }

  /** Counting split along the layout of one pivoted column: the first s
      steps (an optional swap), step s (the normalisation), the next m - 1
      steps (the eliminations) and the rest. */
  lemma {:induction false} PivotBlockCounts(t: seq<Step>, s: nat, m: nat, p: Step -> bool)
    requires s <= 1 && 0 < m && |t| >= s + m
    ensures Count(t, p) == Count(t[..s], p) + (if p(t[s]) then 1 else 0)
                           + Count(t[s + 1..s + m], p) + Count(t[s + m..], p)
  {
    var run, rest := t[s + 1..s + m], t[s + m..];
    assert t[s + 1..] == run + rest;
    CountAppend(run, rest, p);
    CountHead(t, s, p);
    assert t == t[..s] + t[s..];
    CountAppend(t[..s], t[s..], p);
  }

  lemma {:induction false} Distribute(a: int, k: int)
    ensures a * (1 + k) == a + a * k
  {
  }

  /** The length law survives prepending a pivoted block of m steps, s of
      them swaps. */
  lemma {:induction false} TallyStep(len: int, sw: int, sk: int, nz: int, s: int, m: int,
                                     len': int, sw': int, sk': int, nz': int)
    requires len' == sw' + sk' + m * nz'
    requires len == s + m + len' && sw == s + sw' && sk == sk' && nz == 1 + nz'
    ensures len == sw + sk + m * nz
  {
    Distribute(m, nz');
  }

  /** What one pivoted column adds to the counts of the steps after it: its
      optional swap, one normalisation and m steps in all. */
  lemma {:induction false} PivotBlockTally(t: seq<Step>, s: nat, anchor: nat, col: nat, m: nat)
    requires s <= 1 && anchor < m && |t| >= s + m
    requires s == 1 ==> t[0].Swap?
    requires t[s].Normalize?
    requires EliminationRun(t[s + 1..s + m], anchor, col, 0, m)
    ensures |t| == s + m + |t[s + m..]|
    ensures Count(t, IsSwap) == s + Count(t[s + m..], IsSwap)
    ensures Count(t, IsSkip) == Count(t[s + m..], IsSkip)
    ensures Count(t, IsNormalize) == 1 + Count(t[s + m..], IsNormalize)
  {
    EliminationRunCounts(t[s + 1..s + m], anchor, col, 0, m);
    PivotBlockCounts(t, s, m, IsSwap);
    PivotBlockCounts(t, s, m, IsSkip);
    PivotBlockCounts(t, s, m, IsNormalize);
    assert Count(t[..s], IsSwap) == s && Count(t[..s], IsSkip) == 0 && Count(t[..s], IsNormalize) == 0;
  }

  /** Step-count law of the column part: every column is either skipped or
      pivoted; a pivoted column costs m steps plus one if it swapped. */
  lemma {:induction false} BlocksCount(t: seq<Step>, j: nat, anchor: nat, m: nat, n: nat, P: seq<nat>)
    requires j <= n && anchor <= m && Blocks(t, j, anchor, m, n, P)
    ensures |t| == Count(t, IsSwap) + Count(t, IsSkip) + m * Count(t, IsNormalize)
    ensures Count(t, IsNormalize) == |P|
    ensures Count(t, IsSkip) + |P| == n - j
    ensures anchor + |P| <= m
    decreases n - j
  {
    if j == n {
    } else if |t| > 0 && t[0].Skip? {
      BlocksCount(t[1..], j + 1, anchor, m, n, P);
    } else {
      var s := if |t| > 0 && t[0].Swap? then 1 else 0;
      var rest := t[s + m..];
      BlocksCount(rest, j + 1, anchor + 1, m, n, P[1..]);
      PivotBlockTally(t, s, anchor, j, m);
      TallyStep(|t|, Count(t, IsSwap), Count(t, IsSkip), Count(t, IsNormalize), s, m,
                |rest|, Count(rest, IsSwap), Count(rest, IsSkip), Count(rest, IsNormalize));
    }
  }

  /** Each pivoted column contributes exactly m - 1 eliminations. */
  lemma {:induction false} BlocksEliminations(t: seq<Step>, j: nat, anchor: nat, m: nat, n: nat, P: seq<nat>)
    requires j <= n && Blocks(t, j, anchor, m, n, P)
    ensures Count(t, IsEliminate) == (m - 1) * |P|
    decreases n - j
  {
    if j == n {
    } else if |t| > 0 && t[0].Skip? {
      BlocksEliminations(t[1..], j + 1, anchor, m, n, P);
    } else {
      var s := if |t| > 0 && t[0].Swap? then 1 else 0;
      EliminationRunCounts(t[s + 1..s + m], anchor, j, 0, m);
      BlocksEliminations(t[s + m..], j + 1, anchor + 1, m, n, P[1..]);
      PivotBlockCounts(t, s, m, IsEliminate);
      assert Count(t[..s], IsEliminate) == 0;
      Distribute(m - 1, |P[1..]|);
    }
  }
}
