# Dense real matrices: allocation, arithmetic, Gaussian elimination and the matrix exponential

This project is a Dafny model of the core of a small C library for dense
matrices of `double`. A `matrix` is a row-major buffer `data` of `w * h`
entries together with its width `w` (columns) and height `h` (rows). The
model covers three parts:

- **matrix.c** holds the matrix operations. They allocate (zero-filled, or
  the identity), copy, and reach element `(i, j)` at offset `w * i + j`.
  They query the row and column counts, which are 0 for NULL. They assign,
  add, scale by a number or divide by one, take the infinity norm (the
  largest absolute row sum) and multiply. Errors are reported as NULL or as
  `-1`.
- **matrix_gauss.c** solves `A * X = B` by Gaussian elimination with
  partial pivoting and back substitution. It works on private copies of `A` and `B`. A column
  whose largest candidate pivot is below `1e-15` counts as singular. The
  file also measures how far a claimed solution is from `B`: the largest
  entry of `|A * X - B|`.
- **matrix_exp.c** computes `exp(A)` from the Taylor series. It keeps
  `term = A^(k-1) / (k-1)!` and `result = I + A + … + term`. It stops at
  the first term whose norm is below `eps`, and that term is not added.

The C code changes memory step by step, so the model is imperative. The
class `Matrices.Matrix` has the constant shape `w`, `h` and an
`array<real>` buffer. A NULL pointer is `null` of type `Matrix?`. Each
operation is a method or function, and its loops carry invariants; each is
proved against specification functions on `seq<seq<real>>`:

- `LinearAlgebra`: `MatAdd`, `MatScale`, `MatMul`, `InfNorm`, `Identity`.
- `GaussSpec`: the algorithm of `matrix_solve_gauss` over exact values, each
  loop written as the recursion it unrolls to. `Pivot` is the pivot scan,
  `EliminateFrom` the elimination below a pivot, `ColumnStep` one column of
  the forward pass and `ForwardFrom` the whole forward pass. `BackRowsFrom`
  and `BackFrom` are the backward pass, and `GaussSolve` is both passes. Each
  carries a flag `exact`, which turns false once a factor skipped for being
  under `1e-15` was not exactly zero.
- `Gauss`: the residual `Residual`.
- `ExpSpec`: `TaylorTerm` and `TaylorSum`.

`GaussFixtures` works the three systems that `main.c` hands to
`matrix_solve_gauss` through `GaussSolve`.

The abstraction function is `Matrix.Value()`. It maps the buffer to rows by
the same offset rule as `matrix_ptr`.

The proofs cover the following:

- Shape and NULL checks give exactly the documented error results, and
  failed operations leave their operands unchanged.
- The pivot is the first entry of largest magnitude. `swap_rows` exchanges
  two rows.
- Every loop of `matrix_solve_gauss` ends in the state its recursion in
  `GaussSpec` computes. So `Solve` returns NULL on valid inputs exactly when
  `GaussSolve` gets stuck, and otherwise returns the `X` of `GaussSolve`.
- Each step of the elimination is undone by a column operation on a ghost
  matrix `F`. That keeps `F * A_copy == A` and `F * X == B`. So when the
  flag `exact` of `GaussSolve` holds, the returned `X` solves `A * X == B`.
- On a singular exit, every candidate in the failing column is below the
  threshold. A column passes exactly when some candidate reaches it.
- The 3-by-3 system of `main.c` is solved exactly as `x = 3, y = 2, z = 0`.
  The system with two right-hand sides is solved exactly, and its solution
  satisfies `A * X == B`. The singular system gives NULL at column 1.
- The residual is never negative and bounds every entry of `|A*X - B|`. It
  is 0 exactly when `A * X == B`.
- The loop of `matrix_exp` keeps `term` and `result` equal to the Taylor
  term and partial sum. It stops at the first `k >= 2` whose term is below
  `eps` and does not add that term. It always stops when `eps > 0`. This
  follows from a proof that `||A^k / k!||` falls below every positive bound,
  using `||P * A|| <= ||P|| * ||A||`.

`matrix_multiply` leaves `res` unchanged when a check fails, and the model
states this.

## Model

| member | source | states |
|---|---|---|
| Matrices.OffsetInRange | matrix.c:66-74 | every in-range `(i, j)` addresses an element inside the `w * h` buffer |
| Matrices.OffsetInjective | matrix.c:66-74 | two positions with columns below `w` share an address only if they are the same position |
| Matrices.OffsetOnto | matrix.c:66-74 | every buffer index is the address of some `(i, j)` with `i < h`, `j < w` |
| Matrices.GridInjective | matrix.c:7-11 | two buffers of the same shape describe the same matrix if and only if they are equal |
| Matrices.GridUpdate | matrix.c:66-69 | writing through the address of `(i, j)` changes exactly entry `(i, j)` of the matrix |
| Matrices.Matrix.constructor | matrix.c:13-38 | a fresh `w`-by-`h` matrix (positive sizes) whose entries are all 0 (`calloc`) |
| Matrices.Matrix.Get | matrix.c:71-74 | reading through `matrix_cptr(m, i, j)` yields entry `(i, j)` of the matrix |
| Matrices.Matrix.Set | matrix.c:66-69 | writing through `matrix_ptr(m, i, j)` replaces entry `(i, j)` and keeps every other entry |
| Matrices.Alloc | matrix.c:13-38 | NULL exactly when `w == 0` or `h == 0`; otherwise a fresh zero matrix with `h` rows and `w` columns |
| Matrices.CopyBuffer | matrix.c:52 | the whole buffer of `src` copied into `dst`, so `dst` holds the same matrix (the `memcpy` of `matrix_copy`, also used by `matrix_assign` at line 114) |
| Matrices.Copy | matrix.c:40-55 | NULL exactly for NULL; otherwise a fresh matrix, separate from the original, with the same shape and entries |
| Matrices.Rows | matrix.c:76-78 | 0 exactly for NULL, otherwise the number of rows |
| Matrices.Cols | matrix.c:80-82 | 0 exactly for NULL, otherwise the number of columns |
| Matrices.AllocId | matrix.c:84-101 | NULL exactly when `n == 0`; otherwise a fresh `n`-by-`n` identity matrix |
| Matrices.Assign | matrix.c:103-117 | NULL exactly on a NULL operand or a shape mismatch, with `m1` unchanged; otherwise returns `m1` holding the entries of `m2` |
| Matrices.Add | matrix.c:119-136 | `-1` exactly on a NULL operand or a shape mismatch, with `m1` unchanged; otherwise 0 and `m1` becomes the entrywise sum (also when `m2` is `m1`) |
| Matrices.SMul | matrix.c:138-147 | nothing for NULL; otherwise every entry multiplied by `d` |
| Matrices.SDiv | matrix.c:149-156 | nothing for NULL or `d == 0`; otherwise every entry multiplied by `1 / d` |
| Matrices.Norm | matrix.c:159-177 | `-1` for NULL; otherwise the largest absolute row sum, which is never negative |
| Matrices.DotLoop | matrix.c:194-198 | the inner loop accumulates the dot product of row `i` of `a` and column `j` of `b` |
| Matrices.MultiplyInto | matrix.c:192-202 | with compatible shapes and `res` sharing no buffer with `a` or `b`, `res` becomes `a * b` |
| Matrices.Multiply | matrix.c:179-205 | `-1` exactly on a NULL operand or incompatible shapes, with `res` unchanged; otherwise 0, and `res == a * b` when it shares no buffer with `a` or `b` |
| LinearAlgebra.InfNormIsMax | matrix.c:159-177 | the norm bounds every absolute row sum, is attained by one of them, and is never negative |
| LinearAlgebra.InfNormMul | matrix.c:179-205 | the norm of a product is at most the product of the norms |
| LinearAlgebra.InfNormScale | matrix.c:138-147 | scaling by `c` multiplies the norm by `|c|` |
| Gauss.GaussMultiply | matrix_gauss.c:9-34 | the same error conditions and product as `matrix_multiply`, checked through the row and column counts |
| Gauss.FindPivotRow | matrix_gauss.c:39-53 | a row at or below `start` whose magnitude in column `col` is the largest, and every earlier candidate is strictly smaller (the first maximum); it is the row `PivotScan` picks |
| GaussSpec.PivotIsFirstMax | matrix_gauss.c:39-53 | the pivot `Pivot` of column `k` is at least as large in magnitude as every candidate from row `k` on, and strictly larger than every candidate before it |
| Gauss.SwapRowsInPlace | matrix_gauss.c:58-67 | rows `r1` and `r2` exchanged and every other row kept; nothing changes when `r1 == r2` |
| RowOps.SwapRowsInvolution | matrix_gauss.c:58-67 | swapping the same two rows twice restores the matrix |
| RowOps.SwapRowsPermutes | matrix_gauss.c:58-67 | a swap keeps the multiset of rows, puts row `r2` at `r1` and row `r1` at `r2`, and keeps the rest |
| Gauss.DivideRow | matrix_gauss.c:128-133 | row `k` divided by `d` from column `from` on, everything else kept |
| Gauss.SubtractRow | matrix_gauss.c:140-145 | row `i` loses `f` times row `k` from column `from` on, everything else kept |
| RowOps.SwapUndo | matrix_gauss.c:121-125 | if `F * U == A0`, then swapping rows of `U` and the same columns of `F` keeps the product |
| RowOps.DivUndo | matrix_gauss.c:128-133 | if `F * U == A0`, then dividing row `k` of `U` by `d != 0` and multiplying column `k` of `F` by `d` keeps the product |
| RowOps.SubUndo | matrix_gauss.c:136-146 | if `F * U == A0`, then subtracting `f` times row `k` from row `i` of `U` and adding `f` times column `i` to column `k` of `F` keeps the product |
| Gauss.SubStepTracks | matrix_gauss.c:136-146 | a row subtraction applied to both sides, and undone in `F`, keeps `F * A_copy == A` and `F * X == B` |
| Gauss.EliminationClears | matrix_gauss.c:136-146 | with a 1 at `(k, k)`, subtracting `A_copy[i][k]` times row `k` zeroes `(i, k)` and keeps the other rows and the earlier columns |
| Gauss.SwapStep | matrix_gauss.c:120-125 | rows `k` and `pivot` exchanged in both the copy of `A` and `X`, keeping the tracked system and the zeros below the diagonal |
| Gauss.DivideStep | matrix_gauss.c:127-133 | row `k` divided by the pivot in both copies, so `A_copy[k][k]` becomes 1, keeping the tracked system |
| Gauss.EliminateRow | matrix_gauss.c:136-146 | a factor under `1e-15` leaves both copies as they were and keeps `exact` only if the factor is 0; any other factor subtracts that multiple of row `k` from row `i` (in `A_copy` from column `k` on, in `X` across the row), clearing `(i, k)` and keeping the other rows, the earlier columns and the tracked system; this is one step of `EliminateFrom` |
| Gauss.EliminateBelow | matrix_gauss.c:135-146 | the new copies and the new `exact` are exactly those of `EliminateFrom`, and the system stays tracked when exact |
| GaussSpec.EliminateFromKeeps | matrix_gauss.c:135-146 | the elimination keeps the rows above the first one it touches and the columns before `k`, never turns `exact` back on, and, with a 1 at `(k, k)` and `exact` still set, leaves zeros below `(k, k)` |
| Gauss.ReduceColumn | matrix_gauss.c:120-146 | with a usable pivot, the new copies and `exact` are exactly those of `ColumnStep`: rows above `k` kept, `A_copy[k][k] == 1`, and (exact) zeros below the diagonal in the first `k + 1` columns with the system tracked |
| GaussSpec.ColumnStepShape | matrix_gauss.c:120-146 | a column step keeps the rows above `k`, puts a 1 at `(k, k)`, never turns `exact` back on, and, when still exact, extends the zeros below the diagonal to column `k` |
| Gauss.ForwardColumn | matrix_gauss.c:107-147 | the column passes if and only if some candidate from row `k` down reaches `1e-15` (equivalently, the pivot does); on a pass the new state is the `ColumnStep` at the pivot, on a failure nothing changes and every candidate is below `1e-15`; either way `ForwardFrom` from the old state is `ForwardFrom` from the new one, or stuck at `k` |
| Gauss.ForwardPass | matrix_gauss.c:107-147 | succeeds if and only if `ForwardFrom` reduces every column, ends in its final state and flag, and fails at the column where it gets stuck; on success ones on the diagonal of `A_copy` (and, when exact, zeros below with the system tracked); on failure every candidate in that column is below the threshold |
| GaussSpec.StuckMeansSmall | matrix_gauss.c:107-118 | when `ForwardFrom` gets stuck, every candidate pivot of its column in the state it stops at is under `1e-15` |
| Gauss.BackRow | matrix_gauss.c:151-157 | a factor `A_copy[i][k]` under `1e-15` leaves `X` unchanged and keeps `exact` only if the factor is 0; any other factor subtracts that multiple of row `k` of `X` from row `i`; when exact the reduced system is kept with entry `(i, k)` cleared |
| Gauss.BackColumn | matrix_gauss.c:150-159 | the new `X` and `exact` are exactly those of `BackRowsFrom` for column `k`; when exact the reduced system is kept and column `k` is cleared above the diagonal |
| Gauss.UnitTriangularCleared | matrix_gauss.c:150-159 | ones on the diagonal and zeros everywhere else make the identity |
| Gauss.BackSubstitute | matrix_gauss.c:149-159 | the final `X` and `exact` are exactly those of `BackFrom` over all columns, and when exact the final `X` satisfies `A * X == B` |
| Gauss.Solve | matrix_gauss.c:73-163 | NULL on a NULL operand, a non-square `A` or a row-count mismatch; on valid inputs NULL if and only if `GaussSolve` is singular, with the reduced copy, failing column and flag of `GaussSolve`; otherwise a fresh `n`-by-`m` `X` equal to the solution of `GaussSolve`, `A` and `B` untouched, the reduced copy with a unit diagonal, and `A * X == B` when exact |
| GaussSpec.SingularMeansSmall | matrix_gauss.c:107-118 | when `GaussSolve` is singular, every candidate pivot of the failing column is under `1e-15` |
| GaussFixtures.SimpleSystem | main.c:45-73 | the 3-by-3 system `[[2, 1, -1], [1, 3, 2], [1, 0, 0]]`, `B = [8, 9, 3]` is solved exactly with `X = [3, 2, 0]` |
| GaussFixtures.MultiSystem | main.c:86-103 | the system `[[1, 2], [3, 4]]` with right-hand sides `[[5, 4], [11, 10]]` is solved exactly with `X = [[1, 2], [2, 1]]`, and `A * X == B` |
| GaussFixtures.SingularSystem | main.c:123-142 | the system `[[1, 2], [2, 4]]`, `B = [5, 10]` is singular at column 1, so `matrix_solve_gauss` returns NULL |
| Gauss.ResidualIsMax | matrix_gauss.c:190-201 | the residual is never negative, bounds every `|P[i][j] - B[i][j]|`, and is attained by one of them or is 0 |
| Gauss.ResidualZeroIff | matrix_gauss.c:190-201 | the residual is 0 if and only if the two matrices are equal |
| Gauss.LargestDifference | matrix_gauss.c:189-201 | the double loop with `if (diff > max_diff)` computes the residual of `P` against `B` |
| Gauss.CheckSolution | matrix_gauss.c:165-205 | `-1` exactly on a NULL operand or incompatible shapes; otherwise the residual of `A * X` against `B`, which is never negative and is 0 if and only if `A * X == B` |
| ExpSpec.TaylorTermClosedForm | matrix_exp.c:43-51 | the term built by repeated "multiply by `A`, divide by `k`" is `A^k / k!` |
| ExpSpec.TaylorStart | matrix_exp.c:19-31 | the first term is `A` and the starting sum is `I + A` |
| ExpSpec.TaylorTermNormStep | matrix_exp.c:43-53 | the norm of the next term is at most `(1/k) * ||previous term|| * ||A||` |
| ExpSpec.SmallTermExists | matrix_exp.c:36-61 | for every `eps > 0` some term with `k >= 2` has norm below `eps`, so the loop exits |
| MatrixExp.NextTerm | matrix_exp.c:38-51 | `term` becomes `old(term) * A / k` and `A` is untouched |
| MatrixExp.ExpStep | matrix_exp.c:38-60 | the loop stops exactly when the new term's norm is below `eps`, leaving `result` without that term; otherwise `result` gains the term and the loop state moves to `k + 1` |
| MatrixExp.ExpLoop | matrix_exp.c:34-61 | from `k = 2` the loop ends at the first `k >= 2` whose term is below `eps`, with `result = sum of A^j / j!` for `j < k` |
| MatrixExp.Exp | matrix_exp.c:6-66 | NULL for NULL or non-square `A`, whatever `eps` is; otherwise a fresh `n`-by-`n` result equal to the Taylor sum up to the first term with norm below `eps`, where every earlier term from `k = 2` on has norm at least `eps` |

## Left out

- `matrix_free` and `matrix_print` (matrix.c:57-64 and from line 207): releasing memory and formatted output are outside a verified model. Dafny collects garbage, and printing is I/O.
- The failure branches of `malloc` and `calloc` (for example matrix.c:20-31 and matrix_exp.c:20-28, 38-41): the model assumes allocation succeeds.
- The `fprintf(stderr, …)` messages in matrix_gauss.c and matrix_exp.c are left out. The error is still modelled by the NULL result.
- `double` arithmetic is modelled as exact `real` arithmetic. Rounding, overflow, `NaN` and infinities are not modelled. The threshold `1e-15` is kept as an exact constant.
- `size_t` overflow of `w * h` in matrix.c:26 and 51 is not modelled. Sizes are unbounded `nat`.
- MatrixExp.Exp: `unsigned int k` (matrix_exp.c:34) is an unbounded `nat`, so the wrap-around after `2^32 - 1` steps is not modelled.
- MatrixExp.Exp: requires `eps > 0` when `A` is a valid square matrix. With `eps <= 0` such an `A` makes the C loop never exit, because a norm is never negative. The model proves termination instead of modelling an unbounded loop.
- Gauss.Solve: `A * X == B` is proved only when `exact` holds, that is when no non-zero factor was skipped for being under `1e-15`. When a tiny factor is skipped, the C code solves a nearby system. The returned `X` is still the one `GaussSolve` computes.
- Matrices.Multiply: the product is promised only when `res` shares no buffer with `a` or `b`. When it does, the C loop reads entries it has already overwritten, and the model says nothing about the result.
- Gauss.GaussMultiply: the same aliasing restriction as `Matrices.Multiply`.
- The demonstration program `main.c` is modelled only through the three systems it solves (`GaussFixtures`). Its exponential and memory tests print their results and are not part of this model.
