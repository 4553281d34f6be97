/**
 * The algorithm of matrix_solve_gauss over exact values. Each loop of the C
 * code becomes the recursion it unrolls to: the pivot scan, the elimination
 * below a pivot, the forward pass over the columns, and the backward pass.
 * Every one carries the flag `exact`, which turns false as soon as a factor
 * skipped for being under the threshold `1e-15` was not exactly zero.
 */
module GaussSpec {
  import opened Sums
  import opened LinearAlgebra
  import opened RowOps

  /** The threshold `1e-15` below which a pivot or a factor counts as zero. */
  const Tolerance: real := 0.000000000000001

  /** A coefficient matrix `U` (n by n) and right-hand sides `X` (n by m). */
  predicate System(U: Mat, X: Mat, n: nat, m: nat)
  {
    IsMat(U, n, n) && IsMat(X, n, m)
  }

  /** The state of the elimination: the two working copies and the flag. */
  datatype Reduction = Reduction(U: Mat, X: Mat, exact: bool)

  // ---------------------------------------------------------------------------
  // The shape of the reduced system

  /** `F * U == A0` and `F * X == B0`: the reduced system is the original one transformed by rows. */
  ghost predicate Tracks(F: Mat, U: Mat, X: Mat, A0: Mat, B0: Mat, n: nat)
  {
    n > 0 && IsMat(F, n, n) && IsMat(U, n, n) && IsMat(X, n, Width(X)) &&
    MatMul(F, U) == A0 && MatMul(F, X) == B0
  }

  /** Ones on the diagonal in the first `k` columns. */
  ghost predicate UnitDiagonalUpTo(U: Mat, k: nat)
  {
    forall c :: 0 <= c < k && c < |U| && c < |U[c]| ==> U[c][c] == 1.0
  }

  /** Zeros below the diagonal in the first `k` columns. */
  ghost predicate ZeroBelowUpTo(U: Mat, k: nat)
  {
    forall i, c :: 0 <= c < k && c < i < |U| && c < |U[i]| ==> U[i][c] == 0.0
  }

  /** Zeros above the diagonal in the columns from `k` on. */
  ghost predicate ZeroAboveFrom(U: Mat, k: nat)
  {
    forall i, c :: k <= c && 0 <= i < c && i < |U| && c < |U[i]| ==> U[i][c] == 0.0
  }

  // ---------------------------------------------------------------------------
  // find_pivot_row

  /**
   * The pivot scan from row `i` on, `p` being the best row so far: a row
   * replaces `p` only when its magnitude in column `col` is strictly larger.
   */
  function PivotScan(U: Mat, col: nat, p: nat, i: nat): (r: nat)
    requires p < |U| && forall t :: 0 <= t < |U| ==> col < |U[t]|
    ensures r < |U| && (r == p || i <= r)
    decreases |U| - i
  {
    if i >= |U| then p
    else PivotScan(U, col, if Abs(U[i][col]) > Abs(U[p][col]) then i else p, i + 1)
  }

  /** The row find_pivot_row picks for column `k`, scanning from row `k`. */
  function Pivot(U: Mat, n: nat, k: nat): (p: nat)
    requires IsMat(U, n, n) && k < n
    ensures k <= p < n
  {
    PivotScan(U, k, k, k + 1)
  }

  /**
   * The scan keeps the first row of largest magnitude: nothing from `start`
   * on is larger, and everything before it is strictly smaller.
   */
  lemma {:induction false} PivotScanFirstMax(U: Mat, col: nat, start: nat, p: nat, i: nat)
    requires p < |U| && forall t :: 0 <= t < |U| ==> col < |U[t]|
    requires start <= p < i || (start == p && i == p + 1)
    requires forall t :: start <= t < i && t < |U| ==> Abs(U[t][col]) <= Abs(U[p][col])
    requires forall t :: start <= t < p ==> Abs(U[t][col]) < Abs(U[p][col])
    ensures start <= PivotScan(U, col, p, i)
    ensures forall t :: start <= t < |U| ==> Abs(U[t][col]) <= Abs(U[PivotScan(U, col, p, i)][col])
    ensures forall t :: start <= t < PivotScan(U, col, p, i) ==> Abs(U[t][col]) < Abs(U[PivotScan(U, col, p, i)][col])
    decreases |U| - i
  {
    if i < |U| {
      var q := if Abs(U[i][col]) > Abs(U[p][col]) then i else p;
      PivotScanFirstMax(U, col, start, q, i + 1);
    }
  }

  /** The pivot of column `k` is the first row at or below `k` of largest magnitude. */
  lemma PivotIsFirstMax(U: Mat, n: nat, k: nat)
    requires IsMat(U, n, n) && k < n
    ensures forall t :: k <= t < n ==> Abs(U[t][k]) <= Abs(U[Pivot(U, n, k)][k])
    ensures forall t :: k <= t < Pivot(U, n, k) ==> Abs(U[t][k]) < Abs(U[Pivot(U, n, k)][k])
  {
    PivotScanFirstMax(U, k, k, k, k + 1);
  }

  // ---------------------------------------------------------------------------
  // The forward pass

  /**
   * The elimination below the pivot of column `k`, from row `i` on: a row
   * whose factor is under the threshold is skipped, any other loses factor
   * times row `k` (in `U` from column `k` on, in `X` entirely).
   */
  function EliminateFrom(U: Mat, X: Mat, n: nat, m: nat, exact: bool, k: nat, i: nat): (r: Reduction)
    requires System(U, X, n, m) && k < n && k < i
    ensures System(r.U, r.X, n, m)
    decreases n - i
  {
    if i >= n then Reduction(U, X, exact)
    else
      var f := U[i][k];
      if Abs(f) < Tolerance then EliminateFrom(U, X, n, m, exact && f == 0.0, k, i + 1)
      else EliminateFrom(SubRowFrom(U, i, k, k, f), SubRowFrom(X, i, k, 0, f), n, m, exact, k, i + 1)
  }

  /**
   * The elimination below row `k` leaves the rows above `i` and the columns
   * left of `k` alone, and only ever turns `exact` off. With a one at
   * `(k, k)`, an exact run leaves zeros under it from row `i` down.
   */
  lemma {:induction false} EliminateFromKeeps(U: Mat, X: Mat, n: nat, m: nat, exact: bool, k: nat, i: nat)
    requires System(U, X, n, m) && k < n && k < i
    ensures forall r :: 0 <= r < i && r < n ==> EliminateFrom(U, X, n, m, exact, k, i).U[r] == U[r]
    ensures forall r, c :: 0 <= r < n && 0 <= c < k ==> EliminateFrom(U, X, n, m, exact, k, i).U[r][c] == U[r][c]
    ensures EliminateFrom(U, X, n, m, exact, k, i).exact ==> exact
    ensures U[k][k] == 1.0 && EliminateFrom(U, X, n, m, exact, k, i).exact ==>
      forall r :: i <= r < n ==> EliminateFrom(U, X, n, m, exact, k, i).U[r][k] == 0.0
    decreases n - i
  {
    if i < n {
      var f := U[i][k];
      if Abs(f) < Tolerance {
        EliminateFromKeeps(U, X, n, m, exact && f == 0.0, k, i + 1);
      } else {
        var U1 := SubRowFrom(U, i, k, k, f);
        assert U1[i][k] == U[i][k] - f * U[k][k];
        EliminateFromKeeps(U1, SubRowFrom(X, i, k, 0, f), n, m, exact, k, i + 1);
      }
    }
  }

  /**
   * Column `k` once a usable pivot has been found in row `p`: the two rows
   * exchanged when they differ, row `k` divided by the pivot (in `U` from
   * column `k` on, in `X` entirely), then the elimination below it.
   */
  function ColumnStep(U: Mat, X: Mat, n: nat, m: nat, exact: bool, k: nat, p: nat): (r: Reduction)
    requires System(U, X, n, m) && k <= p < n && Abs(U[p][k]) >= Tolerance
    ensures System(r.U, r.X, n, m)
  {
    var U1 := if p != k then SwapRows(U, k, p) else U;
    var X1 := if p != k then SwapRows(X, k, p) else X;
    var d := U1[k][k];
    EliminateFrom(DivRowFrom(U1, k, k, d), DivRowFrom(X1, k, 0, d), n, m, exact, k, k + 1)
  }

  /**
   * A column step keeps the rows above `k`, leaves a one at `(k, k)`, and
   * only ever turns `exact` off; when exact, the zeros below the diagonal
   * grow by column `k`.
   */
  lemma ColumnStepShape(U: Mat, X: Mat, n: nat, m: nat, exact: bool, k: nat, p: nat)
    requires System(U, X, n, m) && k <= p < n && Abs(U[p][k]) >= Tolerance
    ensures forall r :: 0 <= r < k ==> ColumnStep(U, X, n, m, exact, k, p).U[r] == U[r]
    ensures ColumnStep(U, X, n, m, exact, k, p).U[k][k] == 1.0
    ensures ColumnStep(U, X, n, m, exact, k, p).exact ==> exact
    ensures ZeroBelowUpTo(U, k) && ColumnStep(U, X, n, m, exact, k, p).exact ==>
      ZeroBelowUpTo(ColumnStep(U, X, n, m, exact, k, p).U, k + 1)
  {
    var U1 := if p != k then SwapRows(U, k, p) else U;
    var X1 := if p != k then SwapRows(X, k, p) else X;
    var d := U1[k][k];
    var U2 := DivRowFrom(U1, k, k, d);
    assert U2[k][k] == d / d == 1.0;
    EliminateFromKeeps(U2, DivRowFrom(X1, k, 0, d), n, m, exact, k, k + 1);
    var r := ColumnStep(U, X, n, m, exact, k, p);
    if ZeroBelowUpTo(U, k) && r.exact {
      forall i, c | 0 <= c < k + 1 && c < i < n && c < |r.U[i]| ensures r.U[i][c] == 0.0 {
        if c < k {
          assert r.U[i][c] == U2[i][c] == U1[i][c];
        }
      }
    }
  }

  /** Where the forward pass ends: all columns reduced, or stuck at column `col`. */
  datatype Forward = Reduced(red: Reduction) | Stuck(red: Reduction, col: nat)

  /** The forward pass from column `k` on. */
  function ForwardFrom(U: Mat, X: Mat, n: nat, m: nat, exact: bool, k: nat): (r: Forward)
    requires System(U, X, n, m) && k <= n
    ensures System(r.red.U, r.red.X, n, m)
    ensures r.Stuck? ==> k <= r.col < n
    decreases n - k
  {
    if k == n then Reduced(Reduction(U, X, exact))
    else
      var p := Pivot(U, n, k);
      if Abs(U[p][k]) < Tolerance then Stuck(Reduction(U, X, exact), k)
      else
        var r := ColumnStep(U, X, n, m, exact, k, p);
        ForwardFrom(r.U, r.X, n, m, r.exact, k + 1)
  }

  /** One column of the forward pass: stuck at `k`, or the pass goes on from the reduced column. */
  lemma ForwardFromStep(U: Mat, X: Mat, n: nat, m: nat, exact: bool, k: nat)
    requires System(U, X, n, m) && k < n
    ensures Abs(U[Pivot(U, n, k)][k]) < Tolerance ==>
      ForwardFrom(U, X, n, m, exact, k) == Stuck(Reduction(U, X, exact), k)
    ensures Abs(U[Pivot(U, n, k)][k]) >= Tolerance ==>
      var r := ColumnStep(U, X, n, m, exact, k, Pivot(U, n, k));
      ForwardFrom(U, X, n, m, exact, k) == ForwardFrom(r.U, r.X, n, m, r.exact, k + 1)
  {
  }

  /**
   * Column `k` took the forward pass from `(U, X)` to `(U2, X2)`: when `ok`,
   * the rest of the pass continues from there; otherwise it is stuck at `k`.
   */
  ghost predicate ForwardAdvances(U: Mat, X: Mat, U2: Mat, X2: Mat, n: nat, m: nat,
                                  exact: bool, exact2: bool, k: nat, ok: bool)
  {
    System(U, X, n, m) && System(U2, X2, n, m) && k < n &&
    ForwardFrom(U, X, n, m, exact, k) ==
      if ok then ForwardFrom(U2, X2, n, m, exact2, k + 1) else Stuck(Reduction(U, X, exact), k)
  }

  /** Every candidate pivot of column `col` in `U` is under the threshold. */
  predicate StuckSmall(U: Mat, n: nat, col: nat)
    requires IsMat(U, n, n) && col < n
  {
    forall i :: col <= i < n ==> Abs(U[i][col]) < Tolerance
  }

  /**
   * A stuck forward pass stops at a column where every candidate pivot is
   * under the threshold.
   */
  lemma {:induction false} StuckMeansSmall(U: Mat, X: Mat, n: nat, m: nat, exact: bool, k: nat)
    requires System(U, X, n, m) && k <= n
    ensures ForwardFrom(U, X, n, m, exact, k).Stuck? ==>
      StuckSmall(ForwardFrom(U, X, n, m, exact, k).red.U, n, ForwardFrom(U, X, n, m, exact, k).col)
    decreases n - k
  {
    if k < n {
      var p := Pivot(U, n, k);
      if Abs(U[p][k]) < Tolerance {
        PivotIsFirstMax(U, n, k);
      } else {
        var r := ColumnStep(U, X, n, m, exact, k, p);
        assert ForwardFrom(U, X, n, m, exact, k) == ForwardFrom(r.U, r.X, n, m, r.exact, k + 1);
        StuckMeansSmall(r.U, r.X, n, m, r.exact, k + 1);
      }
    }
  }

  // ---------------------------------------------------------------------------
  // The backward pass

  /**
   * Column `k` of the backward pass from row `i` up to row `k - 1`: a row
   * whose factor `U[i][k]` is under the threshold is skipped, any other row
   * of `X` loses factor times row `k`. `U` is only read.
   */
  function BackRowsFrom(U: Mat, X: Mat, n: nat, m: nat, exact: bool, k: nat, i: nat): (r: Reduction)
    requires System(U, X, n, m) && k < n && i <= k
    ensures r.U == U && System(r.U, r.X, n, m)
    decreases k - i
  {
    if i == k then Reduction(U, X, exact)
    else
      var f := U[i][k];
      if Abs(f) < Tolerance then BackRowsFrom(U, X, n, m, exact && f == 0.0, k, i + 1)
      else BackRowsFrom(U, SubRowFrom(X, i, k, 0, f), n, m, exact, k, i + 1)
  }

  /** The backward pass over columns `k - 1` down to 0. */
  function BackFrom(U: Mat, X: Mat, n: nat, m: nat, exact: bool, k: nat): (r: Reduction)
    requires System(U, X, n, m) && k <= n
    ensures r.U == U && System(r.U, r.X, n, m)
    decreases k
  {
    if k == 0 then Reduction(U, X, exact)
    else
      var r := BackRowsFrom(U, X, n, m, exact, k - 1, 0);
      BackFrom(U, r.X, n, m, r.exact, k - 1)
  }

  // ---------------------------------------------------------------------------
  // matrix_solve_gauss

  /** A solution with the reduced coefficients, or the column where elimination got stuck. */
  datatype Outcome = Solved(X: Mat, U: Mat, exact: bool) | Singular(U: Mat, col: nat, exact: bool)

  /** Both passes on `A` and `B`, starting exact. */
  function GaussSolve(A: Mat, B: Mat, n: nat, m: nat): (o: Outcome)
    requires System(A, B, n, m)
    ensures o.Solved? ==> System(o.U, o.X, n, m)
    ensures o.Singular? ==> IsMat(o.U, n, n) && o.col < n
  {
    match ForwardFrom(A, B, n, m, true, 0)
    case Stuck(r, col) => Singular(r.U, col, r.exact)
    case Reduced(r) =>
      var b := BackFrom(r.U, r.X, n, m, r.exact, n);
      Solved(b.X, b.U, b.exact)
  }

  /** A singular outcome names a column where every candidate pivot is under the threshold. */
  lemma SingularMeansSmall(A: Mat, B: Mat, n: nat, m: nat)
    requires System(A, B, n, m)
    ensures GaussSolve(A, B, n, m).Singular? ==>
      StuckSmall(GaussSolve(A, B, n, m).U, n, GaussSolve(A, B, n, m).col)
  {
    StuckMeansSmall(A, B, n, m, true, 0);
    var f := ForwardFrom(A, B, n, m, true, 0);
    if f.Stuck? {
      assert GaussSolve(A, B, n, m) == Singular(f.red.U, f.col, f.red.exact);
    }
  }
}
