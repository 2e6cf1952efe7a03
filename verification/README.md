# Gauss-Jordan elimination with a step-by-step derivation (GJE_Two), in Dafny

This project models `rref` from `main.c`. `rref` reduces an m x n matrix to
reduced row-echelon form by Gauss-Jordan elimination. It works through the
columns from left to right. In each column it searches for the first row, at
or below the anchor row, whose entry is larger in magnitude than the
tolerance `EPSILON`. It swaps that row into the anchor row, divides the
anchor row by the pivot, and clears the pivot column from every other
row. Each narrated row operation is followed by a snapshot of the
matrix; a skipped column is narrated without one, and a swap of the anchor
row with itself is not narrated. The model also covers the three
elementary row operations `swap`, `mult` and `add`.

The model works over exact arithmetic. Entries are Dafny `real`s. The
dimensions m and n are runtime values: any non-empty rectangular matrix is
accepted. The tolerance is a parameter `eps >= 0`; the constant
`Eliminator.EPSILON` records the compiled value, 1e-6. Each narrated action
becomes a `Trace.Step` value instead of LaTeX text, so the derivation is a
sequence that can be counted, ordered and replayed.

Modules:

- `Matrices` (matrices.dfy): the `Matrix` type, `SwapRows`, `MultRow` and
  `AddRow` (the C functions `swap`, `mult` and `add`), and their inverses.
- `Trace` (trace.dfy): the `Step` datatype. `Replays` says every snapshot is
  what the narrated row operation makes of the previous matrix. `Blocks` is
  the grammar of the column part of a trace. The file also holds the counting
  lemmas behind the step-count law.
- `Echelon` (echelon.dfy): a stand-alone definition of reduced row-echelon
  form (`IsRref`, via `Lead` and `ZeroRow`), plus the two invariants that
  the elimination maintains.
- `Eliminator` (eliminator.dfy): the pivot search `FindPivot`; the
  elimination loop `EliminateFrom`; one pass of the column loop, `Column`
  (with `Pivoted` for the pivot case); the whole column loop, `Sweep`;
  `Rref`; and the theorems about them.
- `Idempotence` (idempotence.dfy): reducing a matrix that is already in
  reduced row-echelon form changes nothing.

How the code is read:

- The early exit `if (anchor > m) break;` runs right after `anchor++`. Here
  the same test runs at the start of the next column. The two placements
  agree, because a skipped column `continue`s without changing the anchor.
  `Sweep` does not require the anchor to be in range, so the exit branch is
  a real branch of the model. `SweepAnchor` proves it never fires: the
  anchor never goes above m. Once the anchor reaches m, every remaining
  column is skipped and gets a `Skip` step (`ExhaustedRowsSkip`). This
  differs from a reading where the loop stops when the rows run out. The
  model follows the code.
- `swap(A, a, anchor)` runs even when `a == anchor`; `SwapRows` is then the
  identity. A `Swap` step is emitted only when the two rows differ.
- `Normalize` steps carry the factor `1 / pivot`. The C narration does not
  print this factor. It is kept so that a trace can be replayed.
- `add(A, a, b, c)` with `a == b` is not excluded. Each C iteration reads and
  writes the same cell, so the row is scaled by `1 + c`; `AddRow` gives the
  same result. `rref` never makes such a call: elimination steps skip the
  anchor row (`EliminationRun`).
- Division by the pivot is safe: the pivot's magnitude is above
  `eps >= 0`, so it is nonzero. There is no separate error path for a
  degenerate reciprocal because the code has none.

## Model

| member | source | states |
|---|---|---|
| Matrices.SwapRows | main.c:143-156 | rows a and b trade places; every other row and the m x n shape are unchanged; swapping a row with itself is the identity |
| Matrices.SwapInvolution | main.c:143-156 | swapping the same two rows twice gives back the original matrix |
| Matrices.MultRow | main.c:164-173 | row a becomes c times row a, entry by entry; every other row and the shape are unchanged |
| Matrices.MultInverse | main.c:164-173 | scaling a row by a nonzero c and then by 1/c gives back the original matrix |
| Matrices.AddRow | main.c:182-191 | row a becomes row a plus c times row b, entry by entry; every other row (row b too, when a differs from b) and the shape are unchanged |
| Matrices.AddInverse | main.c:182-191 | for distinct rows, adding c times row b and then -c times row b gives back the original matrix |
| Eliminator.FindPivot | main.c:74-89 | returns the least row index at or after the anchor whose entry in column j exceeds eps in magnitude; every row before it (from the anchor on) is within eps; no pivot exactly when every row from the anchor down is within eps |
| Eliminator.EliminateFrom | main.c:103-116 | the elimination loop keeps the shape; what it does to each row, the order and columns of its steps, their factors and their snapshots are stated by EliminateRows, EliminateOrder, EliminateFactors and EliminateReplays |
| Eliminator.EliminateRows | main.c:103-116 | after the elimination loop, the anchor row is unchanged and every other row k equals its old value minus A[k][j] times the anchor row |
| Eliminator.EliminateOrder | main.c:103-108 | the elimination steps name every row except the anchor exactly once, in increasing row order; all use the anchor row and name the pivot column j as the column they clear |
| Eliminator.EliminateFactors | main.c:107-110 | the factor of each elimination step is minus that row's entry in the pivot column, read from the matrix as it was when the loop started |
| Eliminator.EliminateReplays | main.c:107-112 | each elimination snapshot is the add operation applied to the previous matrix, and the last snapshot is the loop's result |
| Eliminator.Pivoted | main.c:78-116 | after a pivot is found, the pivot column becomes the unit vector of the anchor row (1 at the anchor, exactly 0 elsewhere); the anchor moves down by one; the shape is unchanged |
| Eliminator.Column | main.c:73-119 | a column is skipped (matrix and anchor unchanged, one Skip step) exactly when every entry from the anchor down is within eps; otherwise it becomes a unit column at the anchor and the anchor rises by exactly one, never above m; which row it pivots on is stated by `ColumnPivotRow` |
| Eliminator.ColumnPivotRow | main.c:74-100 | the row brought into the anchor row is the first one at or below the anchor above tolerance: the column's first step is a Swap exactly when that row is not the anchor, and it names that row; the anchor row ends as that row divided by its pivot entry; the column pivots exactly when the search finds a row |
| Eliminator.ColumnFreezes | main.c:78-116 | a column that is zero from the anchor row down is left unchanged by processing a later column, so earlier pivot columns survive later operations |
| Eliminator.ColumnReplays | main.c:81-112 | each snapshot of a column's steps (swap, normalise, eliminations) is the narrated row operation applied to the previous matrix; the last one is the column's result |
| Eliminator.ColumnBlocks | main.c:81-116 | a column's steps are one Skip, or an optional Swap of a lower row into the anchor, one Normalize of the anchor and m - 1 eliminations of column j, followed by the later columns' steps |
| Eliminator.Sweep | main.c:71-126 | the column loop keeps the shape; the final anchor is the starting anchor plus the number of pivot columns, and there is at most one pivot column per remaining column |
| Eliminator.SweepAnchor | main.c:119-124 | starting from an anchor no larger than the column index or m, the anchor never decreases and never exceeds m or n; every remaining column is either skipped or pivoted, so the `anchor > m` exit never fires |
| Eliminator.ExhaustedRowsSkip | main.c:75-95 | once the anchor equals m, every remaining column is skipped: one Skip step per column, in order, and the matrix is unchanged |
| Eliminator.SweepPivots | main.c:71-126 | the pivot columns found so far stay unit columns through all later columns; they increase strictly with their pivot rows, and there is at most one per row |
| Eliminator.SweepPattern | main.c:71-126 | with a zero tolerance, rows below the pivot rows are zero in every processed column, and each pivot row is zero before its pivot column |
| Eliminator.Rref | main.c:58-135 | the result has the input's dimensions; the trace starts with the input snapshot and ends with the result; every snapshot is the narrated row operation applied to the previous matrix; pivot k sits in row k with a unit column, and pivot columns strictly increase |
| Eliminator.RrefTrace | main.c:67-129 | the trace is Initial, one block per column, then Final; its length is 2 + swaps + skipped columns + m per pivoted column; there are (m - 1) eliminations per pivoted column, and skipped plus pivoted columns equal n |
| Eliminator.RrefReduces | main.c:126-129 | with a zero tolerance, the result is in reduced row-echelon form: zero rows come last, every leading entry is 1 and alone in its column, and leading entries move right going down |
| Echelon.PivotsGiveRref | main.c:126-129 | unit pivot columns with strictly increasing columns, together with the zero pattern over all columns, imply reduced row-echelon form |
| Trace.BlocksCount | main.c:67-129 | a trace that follows the block grammar has length swaps + skips + m times normalisations; there is one normalisation per pivot column; skips plus pivots equal the number of columns |
| Idempotence.RrefOfRref | main.c:71-126 | reducing a matrix that is already in reduced row-echelon form, with any tolerance below 1, returns it unchanged and emits no Swap step |
| Idempotence.RrefIdempotent | main.c:58-135 | with a zero tolerance, reducing twice gives the same matrix as reducing once |
| Idempotence.RrefTwiceDiffersAtEpsilon | main.c:71-126 | with the compiled tolerance 1e-6, [[5e-7, 2e-6]] reduces to [[0.25, 1]], and reducing that again gives [[1, 4]]: reducing twice is not reducing once when eps > 0 |

## Left out

- `main` (main.c:35-52): the hard-coded 4 x 4 input, the console messages
  and `system("PAUSE")`. These are process and I/O plumbing. The worked
  example of that input is therefore not modelled either.
- Opening and closing `rref.tex`, and `preambles`, `endambles` and
  `texmatrix` (main.c:197-255): literal LaTeX text and `%.2f` formatting.
  Each `fprintf` narration with its `texmatrix` snapshot is a `Step` value
  instead. The narration's 1-based row and column numbers are shown 0-based.
- IEEE double rounding, NaN and infinities. Entries are exact reals. The
  claims that a pivot is exactly 1 and that eliminated entries are exactly 0
  hold in the model only, not for C doubles.
- Eliminator.RrefReduces: reduced row-echelon form is proved only for a zero
  tolerance. With `eps > 0`, entries within the tolerance are skipped but
  not zeroed, and later row operations can make them larger. For any
  tolerance, `Rref` proves the unit pivot columns and their strictly
  increasing order, which is what the code guarantees.
- Idempotence.RrefIdempotent: proved only for a zero tolerance, because
  for `eps > 0` it is false. An entry within the tolerance is skipped, and
  normalising a later column can push it above the tolerance.
  `RrefTwiceDiffersAtEpsilon` gives such a matrix at `EPSILON`.
  `RrefOfRref` still holds for every tolerance below 1: a matrix already
  in reduced row-echelon form comes back unchanged.
