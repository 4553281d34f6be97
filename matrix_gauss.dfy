/**
 * matrix_gauss.c: solving `A * X = B` by Gaussian elimination with partial
 * pivoting on copies of `A` and `B`, and measuring the residual of a solution.
 *
 * Exactness. The solver skips every elimination whose factor has magnitude
 * below `Tolerance`. A skipped factor that is exactly 0 changes nothing; a
 * skipped factor that is not 0 leaves an entry uneliminated, after which the
 * result solves a perturbed system. The ghost flag `exact` returned by
 * `Solve` records that no factor of the second kind was skipped, and the
 * solution is proved exact under that flag.
 */
module Gauss {
  import opened Sums
  import opened LinearAlgebra
  import opened Matrices
  import opened RowOps
  import opened GaussSpec

  // ---------------------------------------------------------------------------
  // gauss_matrix_multiply

  /**
   * gauss_matrix_multiply(res, a, b): the checks of matrix_multiply written
   * with matrix_rows / matrix_cols, then the same product.
   */
  method GaussMultiply(res: Matrix?, a: Matrix?, b: Matrix?) returns (status: int)
    requires ValidOrNull(res) && ValidOrNull(a) && ValidOrNull(b)
    modifies if res != null then {res.data} else {}
    ensures status == -1 || status == 0
    ensures status == -1 <==>
      res == null || a == null || b == null || a.w != b.h || res.h != a.h || res.w != b.w
    ensures status == -1 && res != null ==> unchanged(res.data)
    ensures status == 0 && res.data != a.data && res.data != b.data ==>
      res.Value() == MatMul(old(a.Value()), old(b.Value()))
  {
    if res == null || a == null || b == null {
      return -1;
    }
    var aRows, aCols, bRows, bCols := Rows(a), Cols(a), Rows(b), Cols(b);
    var resRows, resCols := Rows(res), Cols(res);
    if aCols != bRows {
      return -1;
    }
    if resRows != aRows {
      return -1;
    }
    if resCols != bCols {
      return -1;
    }
    MultiplyInto(res, a, b);
    return 0;
  }

  // ---------------------------------------------------------------------------
  // find_pivot_row and swap_rows

  /**
   * find_pivot_row(A, col, start): the first row at or below `start` whose
   * entry in column `col` has the largest magnitude.
   */
  method FindPivotRow(A: Matrix, col: nat, start: nat) returns (p: nat)
    requires A.Valid() && col < A.w && start < A.h
    ensures start <= p < A.h
    ensures forall i :: start <= i < A.h ==> Abs(A.Value()[i][col]) <= Abs(A.Value()[p][col])
    ensures forall i :: start <= i < p ==> Abs(A.Value()[i][col]) < Abs(A.Value()[p][col])
    ensures p == PivotScan(A.Value(), col, start, start + 1)
  {
    p := start;
    var maxVal := Abs(A.Get(start, col));
    var rows := Rows(A);
    var i := start + 1;
    while i < rows
      invariant start < i <= rows && start <= p < i
      invariant maxVal == Abs(A.Value()[p][col])
      invariant forall t :: start <= t < i ==> Abs(A.Value()[t][col]) <= maxVal
      invariant forall t :: start <= t < p ==> Abs(A.Value()[t][col]) < maxVal
      invariant PivotScan(A.Value(), col, p, i) == PivotScan(A.Value(), col, start, start + 1)
    {
      var val := Abs(A.Get(i, col));
      if val > maxVal {
        maxVal := val;
        p := i;
      }
      i := i + 1;
    }
  }

  /** swap_rows(m, r1, r2): rows `r1` and `r2` exchanged in place; nothing when they are equal. */
  method SwapRowsInPlace(m: Matrix, r1: nat, r2: nat)
    requires m.Valid() && r1 < m.h && r2 < m.h
    modifies m.data
    ensures m.Value() == SwapRows(old(m.Value()), r1, r2)
  {
    ghost var M := m.Value();
    if r1 == r2 {
      SwapRowsInvolution(M, r1, r2);
      return;
    }
    var cols := Cols(m);
    var j := 0;
    while j < cols
      invariant j <= cols
      invariant forall r, c :: 0 <= r < m.h && 0 <= c < m.w ==>
        m.Value()[r][c] == if c < j then SwapRows(M, r1, r2)[r][c] else M[r][c]
    {
      var tmp := m.Get(r1, j);
      m.Set(r1, j, m.Get(r2, j));
      m.Set(r2, j, tmp);
      j := j + 1;
    }
    MatExt(m.Value(), SwapRows(M, r1, r2), m.h, m.w);
  }

  // ---------------------------------------------------------------------------
  // The row loops of the forward and backward passes

  /** `for (j = from; j < cols; j++) m[k][j] /= d;` */
  method DivideRow(m: Matrix, k: nat, from: nat, d: real)
    requires m.Valid() && k < m.h && from <= m.w && d != 0.0
    modifies m.data
    ensures m.Value() == DivRowFrom(old(m.Value()), k, from, d)
  {
    ghost var M := m.Value();
    var j := from;
    while j < m.w
      invariant from <= j <= m.w
      invariant forall r :: 0 <= r < m.h && r != k ==> m.Value()[r] == M[r]
      invariant forall c :: 0 <= c < m.w ==>
        m.Value()[k][c] == if from <= c < j then M[k][c] / d else M[k][c]
    {
      m.Set(k, j, m.Get(k, j) / d);
      j := j + 1;
    }
    DivRowFromEntries(M, m.Value(), m.h, m.w, k, from, d);
  }

  /** `for (j = from; j < cols; j++) m[i][j] -= f * m[k][j];` */
  method SubtractRow(m: Matrix, i: nat, k: nat, from: nat, f: real)
    requires m.Valid() && i < m.h && k < m.h && i != k && from <= m.w
    modifies m.data
    ensures m.Value() == SubRowFrom(old(m.Value()), i, k, from, f)
  {
    ghost var M := m.Value();
    var j := from;
    while j < m.w
      invariant from <= j <= m.w
      invariant forall r :: 0 <= r < m.h && r != i ==> m.Value()[r] == M[r]
      invariant forall c :: 0 <= c < m.w ==>
        m.Value()[i][c] == if from <= c < j then M[i][c] - f * M[k][c] else M[i][c]
    {
      m.Set(i, j, m.Get(i, j) - f * m.Get(k, j));
      j := j + 1;
    }
    SubRowFromEntries(M, m.Value(), m.h, m.w, i, k, from, f);
  }

  // ---------------------------------------------------------------------------
  // What the elimination keeps true

  /** Subtracting a multiple of row `k` from row `i` on both sides, undone in `F`, keeps the system. */
  lemma SubStepTracks(F: Mat, U: Mat, X: Mat, A0: Mat, B0: Mat, n: nat, i: nat, k: nat, f: real)
    requires Tracks(F, U, X, A0, B0, n) && i < n && k < n && i != k
    ensures Tracks(AddCol(F, k, i, f), SubRowFrom(U, i, k, 0, f), SubRowFrom(X, i, k, 0, f), A0, B0, n)
  {
    SubUndo(F, U, n, i, k, f);
    SubUndo(F, X, n, i, k, f);
  }

  /** With a one at `(k, k)`, subtracting `R[i][k]` times row `k` clears `(i, k)` and keeps the other rows. */
  lemma EliminationClears(R: Mat, n: nat, i: nat, k: nat, f: real)
    requires IsMat(R, n, n) && i < n && k < n && i != k && R[k][k] == 1.0 && f == R[i][k]
    ensures SubRowFrom(R, i, k, k, f)[i][k] == 0.0
    ensures forall r :: 0 <= r < n && r != i ==> SubRowFrom(R, i, k, k, f)[r] == R[r]
    ensures forall c :: 0 <= c < k ==> SubRowFrom(R, i, k, k, f)[i][c] == R[i][c]
  {
  }

  /**
   * The elimination loop of one column `k` of the forward pass: every row
   * below `k` whose factor is not negligible loses `factor` times row `k`,
   * in `A_copy` from column `k` on and in `X` across all columns.
   */
  method EliminateBelow(Ac: Matrix, Xm: Matrix, k: nat,
                        ghost A0: Mat, ghost B0: Mat, ghost F0: Mat, ghost exact0: bool)
    returns (ghost F: Mat, ghost exact: bool)
    requires Ac.Valid() && Xm.Valid() && Ac.data != Xm.data
    requires Ac.w == Ac.h && Xm.h == Ac.h && k < Ac.h
    requires Ac.Value()[k][k] == 1.0
    requires exact0 ==> Tracks(F0, Ac.Value(), Xm.Value(), A0, B0, Ac.h) && ZeroBelowUpTo(Ac.Value(), k)
    modifies Ac.data, Xm.data
    ensures exact ==> Tracks(F, Ac.Value(), Xm.Value(), A0, B0, Ac.h)
    ensures Reduction(Ac.Value(), Xm.Value(), exact) ==
      EliminateFrom(old(Ac.Value()), old(Xm.Value()), Ac.h, Xm.w, exact0, k, k + 1)
  {
    var n := Ac.h;
    F, exact := F0, exact0;
    ghost var R0, X0 := Ac.Value(), Xm.Value();
    var i := k + 1;
    while i < n
      invariant k < i <= n
      invariant Ac.Value()[k][k] == 1.0
      invariant exact ==> Tracks(F, Ac.Value(), Xm.Value(), A0, B0, n) && ZeroBelowUpTo(Ac.Value(), k)
      invariant EliminateFrom(Ac.Value(), Xm.Value(), n, Xm.w, exact, k, i) ==
        EliminateFrom(R0, X0, n, Xm.w, exact0, k, k + 1)
    {
      F, exact := EliminateRow(Ac, Xm, i, k, A0, B0, F, exact);
      i := i + 1;
    }
  }

  /**
   * One row `i` below `k` in the forward pass: when its factor `A_copy[i][k]`
   * is not negligible, row `i` loses that factor times row `k`, in `A_copy`
   * from column `k` on and in `X` across all columns; otherwise nothing
   * changes and `exact` drops if the skipped factor was not zero.
   */
  method EliminateRow(Ac: Matrix, Xm: Matrix, i: nat, k: nat,
                      ghost A0: Mat, ghost B0: Mat, ghost F0: Mat, ghost exact0: bool)
    returns (ghost F: Mat, ghost exact: bool)
    requires Ac.Valid() && Xm.Valid() && Ac.data != Xm.data
    requires Ac.w == Ac.h && Xm.h == Ac.h && k < i < Ac.h
    requires Ac.Value()[k][k] == 1.0
    requires exact0 ==> Tracks(F0, Ac.Value(), Xm.Value(), A0, B0, Ac.h) && ZeroBelowUpTo(Ac.Value(), k)
    modifies Ac.data, Xm.data
    ensures var f := old(Ac.Value())[i][k];
      exact == (exact0 && (f == 0.0 || Abs(f) >= Tolerance))
    ensures var f := old(Ac.Value())[i][k];
      Ac.Value() == if Abs(f) < Tolerance then old(Ac.Value()) else SubRowFrom(old(Ac.Value()), i, k, k, f)
    ensures var f := old(Ac.Value())[i][k];
      Xm.Value() == if Abs(f) < Tolerance then old(Xm.Value()) else SubRowFrom(old(Xm.Value()), i, k, 0, f)
    ensures forall r :: 0 <= r < Ac.h && r != i ==> Ac.Value()[r] == old(Ac.Value())[r]
    ensures forall c :: 0 <= c < k ==> Ac.Value()[i][c] == old(Ac.Value())[i][c]
    ensures exact ==> Ac.Value()[i][k] == 0.0
    ensures exact ==> Tracks(F, Ac.Value(), Xm.Value(), A0, B0, Ac.h)
    ensures EliminateFrom(old(Ac.Value()), old(Xm.Value()), Ac.h, Xm.w, exact0, k, i) ==
      EliminateFrom(Ac.Value(), Xm.Value(), Ac.h, Xm.w, exact, k, i + 1)
  {
    var n := Ac.h;
    F, exact := F0, exact0;
    var factor := Ac.Get(i, k);
    if Abs(factor) < Tolerance {
      if factor != 0.0 {
        exact := false;
      }
    } else {
      ghost var R, X := Ac.Value(), Xm.Value();
      EliminationClears(R, n, i, k, factor);
      if exact {
        SubRowFromWhole(R, i, k, k, factor);
        SubStepTracks(F, R, X, A0, B0, n, i, k, factor);
        F := AddCol(F, k, i, factor);
      }
      SubtractRow(Ac, i, k, k, factor);
      SubtractRow(Xm, i, k, 0, factor);
    }
  }

  /**
   * The exchange of rows `k` and `p` (with `p` at or below `k`) in both the
   * copy of `A` and `X`, with the column exchange of `F` that undoes it.
   */
  method SwapStep(Ac: Matrix, Xm: Matrix, k: nat, p: nat,
                  ghost A0: Mat, ghost B0: Mat, ghost F0: Mat, ghost exact: bool)
    returns (ghost F: Mat)
    requires Ac.Valid() && Xm.Valid() && Ac.data != Xm.data
    requires Ac.w == Ac.h && Xm.h == Ac.h && k <= p < Ac.h
    requires exact ==> Tracks(F0, Ac.Value(), Xm.Value(), A0, B0, Ac.h) && ZeroBelowUpTo(Ac.Value(), k)
    modifies Ac.data, Xm.data
    ensures Ac.Value() == SwapRows(old(Ac.Value()), k, p)
    ensures Xm.Value() == SwapRows(old(Xm.Value()), k, p)
    ensures exact ==> Tracks(F, Ac.Value(), Xm.Value(), A0, B0, Ac.h) && ZeroBelowUpTo(Ac.Value(), k)
  {
    F := F0;
    ghost var R, Xv := Ac.Value(), Xm.Value();
    SwapRowsInPlace(Ac, k, p);
    SwapRowsInPlace(Xm, k, p);
    if exact {
      SwapUndo(F, R, Ac.h, k, p);
      SwapUndo(F, Xv, Ac.h, k, p);
      F := SwapCols(F, k, p);
    }
  }

  /**
   * The normalisation of row `k` by the pivot `d`: in the copy of `A` from
   * column `k` on, in `X` across the whole row; `F` multiplies column `k` by
   * `d` to undo it.
   */
  method DivideStep(Ac: Matrix, Xm: Matrix, k: nat, d: real,
                    ghost A0: Mat, ghost B0: Mat, ghost F0: Mat, ghost exact: bool)
    returns (ghost F: Mat)
    requires Ac.Valid() && Xm.Valid() && Ac.data != Xm.data
    requires Ac.w == Ac.h && Xm.h == Ac.h && k < Ac.h
    requires d != 0.0 && Ac.Value()[k][k] == d
    requires exact ==> Tracks(F0, Ac.Value(), Xm.Value(), A0, B0, Ac.h) && ZeroBelowUpTo(Ac.Value(), k)
    modifies Ac.data, Xm.data
    ensures Ac.Value() == DivRowFrom(old(Ac.Value()), k, k, d)
    ensures Xm.Value() == DivRowFrom(old(Xm.Value()), k, 0, d)
    ensures Ac.Value()[k][k] == 1.0
    ensures exact ==> Tracks(F, Ac.Value(), Xm.Value(), A0, B0, Ac.h) && ZeroBelowUpTo(Ac.Value(), k)
  {
    F := F0;
    ghost var R, Xv := Ac.Value(), Xm.Value();
    DivideRow(Ac, k, k, d);
    DivideRow(Xm, k, 0, d);
    if exact {
      DivRowFromWhole(R, k, k, d);
      DivUndo(F, R, Ac.h, k, d);
      DivUndo(F, Xv, Ac.h, k, d);
      F := ScaleCol(F, k, d);
    }
    assert Ac.Value()[k][k] == d / d;
    DivSelf(d);
  }

  lemma DivSelf(x: real)
    requires x != 0.0
    ensures x / x == 1.0
  {
  }

  /**
   * One column `k` of the forward pass: find the pivot; give up (`ok` false,
   * nothing changed) when its magnitude is below `Tolerance`; otherwise bring
   * it to row `k`, divide row `k` by it and eliminate below it.
   */
  method ForwardColumn(Ac: Matrix, Xm: Matrix, k: nat,
                       ghost A0: Mat, ghost B0: Mat, ghost F0: Mat, ghost exact0: bool)
    returns (ok: bool, ghost F: Mat, ghost exact: bool)
    requires Ac.Valid() && Xm.Valid() && Ac.data != Xm.data
    requires Ac.w == Ac.h && Xm.h == Ac.h && k < Ac.h
    requires exact0 ==> Tracks(F0, Ac.Value(), Xm.Value(), A0, B0, Ac.h) && ZeroBelowUpTo(Ac.Value(), k)
    modifies Ac.data, Xm.data
    ensures !ok ==> unchanged(Ac.data) && unchanged(Xm.data) && F == F0 && exact == exact0
    ensures !ok ==> forall i :: k <= i < Ac.h ==> Abs(Ac.Value()[i][k]) < Tolerance
    ensures ok ==> forall r :: 0 <= r < k ==> Ac.Value()[r] == old(Ac.Value())[r]
    ensures ok ==> Ac.Value()[k][k] == 1.0
    ensures exact ==> exact0
    ensures ok && exact ==> Tracks(F, Ac.Value(), Xm.Value(), A0, B0, Ac.h) && ZeroBelowUpTo(Ac.Value(), k + 1)
    ensures ok <==> Abs(old(Ac.Value())[Pivot(old(Ac.Value()), Ac.h, k)][k]) >= Tolerance
    ensures ok <==> exists i :: k <= i < Ac.h && Abs(old(Ac.Value())[i][k]) >= Tolerance
    ensures ok ==> Reduction(Ac.Value(), Xm.Value(), exact) ==
                   ColumnStep(old(Ac.Value()), old(Xm.Value()), Ac.h, Xm.w, exact0, k, Pivot(old(Ac.Value()), Ac.h, k))
    ensures ForwardAdvances(old(Ac.Value()), old(Xm.Value()), Ac.Value(), Xm.Value(), Ac.h, Xm.w, exact0, exact, k, ok)
  {
    ForwardFromStep(Ac.Value(), Xm.Value(), Ac.h, Xm.w, exact0, k);
    F, exact := F0, exact0;
    var pivot := FindPivotRow(Ac, k, k);
    var pivotVal := Ac.Get(pivot, k);
    if Abs(pivotVal) < Tolerance {
      return false, F, exact;
    }
    F, exact := ReduceColumn(Ac, Xm, k, pivot, pivotVal, A0, B0, F, exact);
    ok := true;
  }

  /**
   * Column `k` of the forward pass once a usable pivot `pivotVal` has been
   * found in row `pivot`: bring it to row `k`, divide row `k` by it and
   * eliminate below it. Rows above `k` are kept.
   */
  method ReduceColumn(Ac: Matrix, Xm: Matrix, k: nat, pivot: nat, pivotVal: real,
                      ghost A0: Mat, ghost B0: Mat, ghost F0: Mat, ghost exact0: bool)
    returns (ghost F: Mat, ghost exact: bool)
    requires Ac.Valid() && Xm.Valid() && Ac.data != Xm.data
    requires Ac.w == Ac.h && Xm.h == Ac.h && k <= pivot < Ac.h
    requires pivotVal == Ac.Value()[pivot][k] && Abs(pivotVal) >= Tolerance
    requires exact0 ==> Tracks(F0, Ac.Value(), Xm.Value(), A0, B0, Ac.h) && ZeroBelowUpTo(Ac.Value(), k)
    modifies Ac.data, Xm.data
    ensures forall r :: 0 <= r < k ==> Ac.Value()[r] == old(Ac.Value())[r]
    ensures Ac.Value()[k][k] == 1.0
    ensures exact ==> exact0
    ensures exact ==> Tracks(F, Ac.Value(), Xm.Value(), A0, B0, Ac.h) && ZeroBelowUpTo(Ac.Value(), k + 1)
    ensures Reduction(Ac.Value(), Xm.Value(), exact) ==
      ColumnStep(old(Ac.Value()), old(Xm.Value()), Ac.h, Xm.w, exact0, k, pivot)
  {
    F, exact := F0, exact0;
    var d := pivotVal;
    ColumnStepShape(Ac.Value(), Xm.Value(), Ac.h, Xm.w, exact0, k, pivot);
    if pivot != k {
      F := SwapStep(Ac, Xm, k, pivot, A0, B0, F, exact);
      d := Ac.Get(k, k);
    }
    F := DivideStep(Ac, Xm, k, d, A0, B0, F, exact);
    F, exact := EliminateBelow(Ac, Xm, k, A0, B0, F, exact);
  }

  /** Rows above `k` kept and a one at `(k, k)` extend the unit diagonal by one column. */
  lemma UnitDiagonalExtend(R: Mat, S: Mat, k: nat)
    requires k <= |R| && k < |S| && k < |S[k]| && S[k][k] == 1.0
    requires UnitDiagonalUpTo(R, k)
    requires forall r :: 0 <= r < k ==> S[r] == R[r]
    ensures UnitDiagonalUpTo(S, k + 1)
  {
    forall c | 0 <= c < k + 1 && c < |S| && c < |S[c]| ensures S[c][c] == 1.0 {
      if c < k {
        assert S[c] == R[c];
      }
    }
  }

  /**
   * The forward pass over all columns, ending where the model `ForwardFrom`
   * ends: reduced, or stuck at column `failCol`. On success the copy of `A`
   * has ones on its diagonal (and, when exact, zeros below it). On failure
   * no pivot candidate in column `failCol` reaches `Tolerance`.
   */
  method ForwardPass(Ac: Matrix, Xm: Matrix, ghost A0: Mat, ghost B0: Mat)
    returns (ok: bool, ghost F: Mat, ghost exact: bool, ghost failCol: nat)
    requires Ac.Valid() && Xm.Valid() && Ac.data != Xm.data
    requires Ac.w == Ac.h && Xm.h == Ac.h
    requires Ac.Value() == A0 && Xm.Value() == B0
    modifies Ac.data, Xm.data
    ensures ok ==> UnitDiagonalUpTo(Ac.Value(), Ac.h)
    ensures ok && exact ==> Tracks(F, Ac.Value(), Xm.Value(), A0, B0, Ac.h) && ZeroBelowUpTo(Ac.Value(), Ac.h)
    ensures !ok ==> failCol < Ac.h && forall i :: failCol <= i < Ac.h ==> Abs(Ac.Value()[i][failCol]) < Tolerance
    ensures !ok ==> UnitDiagonalUpTo(Ac.Value(), failCol)
    ensures !ok && exact ==> ZeroBelowUpTo(Ac.Value(), failCol) && IsMat(F, Ac.h, Ac.h) && MatMul(F, Ac.Value()) == A0
    ensures ok <==> ForwardFrom(A0, B0, Ac.h, Xm.w, true, 0).Reduced?
    ensures Reduction(Ac.Value(), Xm.Value(), exact) == ForwardFrom(A0, B0, Ac.h, Xm.w, true, 0).red
    ensures !ok ==> failCol == ForwardFrom(A0, B0, Ac.h, Xm.w, true, 0).col
  {
    var n := Ac.h;
    ok, F, exact, failCol := true, Identity(n), true, 0;
    MatMulIdentityLeft(A0);
    MatMulIdentityLeft(B0);
    var k := 0;
    while k < n
      invariant k <= n
      invariant UnitDiagonalUpTo(Ac.Value(), k)
      invariant exact ==> Tracks(F, Ac.Value(), Xm.Value(), A0, B0, n) && ZeroBelowUpTo(Ac.Value(), k)
      invariant ForwardFrom(Ac.Value(), Xm.Value(), n, Xm.w, exact, k) == ForwardFrom(A0, B0, n, Xm.w, true, 0)
    {
      ghost var R := Ac.Value();
      ok, F, exact := ForwardColumn(Ac, Xm, k, A0, B0, F, exact);
      if !ok {
        failCol := k;
        break;
      }
      UnitDiagonalExtend(R, Ac.Value(), k);
      k := k + 1;
    }
  }

  /**
   * One column `k` of the backward pass: every row above `k` whose factor
   * `A_copy[i][k]` is not negligible loses `factor` times row `k` of `X`.
   * The ghost `U` is `A_copy` with the columns already processed cleared
   * above the diagonal; it receives the same row operations as `X`.
   */
  method BackColumn(Ac: Matrix, Xm: Matrix, k: nat,
                    ghost A0: Mat, ghost B0: Mat, ghost F0: Mat, ghost U0: Mat, ghost exact0: bool)
    returns (ghost F: Mat, ghost U: Mat, ghost exact: bool)
    requires Ac.Valid() && Xm.Valid() && Ac.data != Xm.data
    requires Ac.w == Ac.h && Xm.h == Ac.h && k < Ac.h
    requires exact0 ==> Tracks(F0, U0, Xm.Value(), A0, B0, Ac.h)
    requires exact0 ==> UnitDiagonalUpTo(U0, Ac.h) && ZeroBelowUpTo(U0, Ac.h) && ZeroAboveFrom(U0, k + 1)
    requires exact0 ==> forall r, c :: 0 <= r < Ac.h && 0 <= c <= k ==> U0[r][c] == Ac.Value()[r][c]
    modifies Xm.data
    ensures exact ==> exact0
    ensures exact ==> Tracks(F, U, Xm.Value(), A0, B0, Ac.h)
    ensures exact ==> UnitDiagonalUpTo(U, Ac.h) && ZeroBelowUpTo(U, Ac.h) && ZeroAboveFrom(U, k)
    ensures exact ==> forall r, c :: 0 <= r < Ac.h && 0 <= c < k ==> U[r][c] == Ac.Value()[r][c]
    ensures Reduction(Ac.Value(), Xm.Value(), exact) == BackRowsFrom(Ac.Value(), old(Xm.Value()), Ac.h, Xm.w, exact0, k, 0)
  {
    var n := Ac.h;
    F, U, exact := F0, U0, exact0;
    ghost var X0 := Xm.Value();
    var i := 0;
    while i < k
      invariant i <= k
      invariant exact ==> exact0
      invariant BackRowsFrom(Ac.Value(), Xm.Value(), n, Xm.w, exact, k, i) == BackRowsFrom(Ac.Value(), X0, n, Xm.w, exact0, k, 0)
      invariant exact ==> Tracks(F, U, Xm.Value(), A0, B0, n)
      invariant exact ==> UnitDiagonalUpTo(U, n) && ZeroBelowUpTo(U, n) && ZeroAboveFrom(U, k + 1)
      invariant exact ==> forall r, c :: 0 <= r < n && 0 <= c < k ==> U[r][c] == Ac.Value()[r][c]
      invariant exact ==> forall r :: i <= r < n ==> U[r][k] == Ac.Value()[r][k]
      invariant exact ==> forall r :: 0 <= r < i ==> U[r][k] == 0.0
    {
      F, U, exact := BackRow(Ac, Xm, i, k, A0, B0, F, U, exact);
      i := i + 1;
    }
  }

  /**
   * One row `i` above `k` in the backward pass: when `A_copy[i][k]` is not
   * negligible, row `i` of `X` loses that factor times row `k`, and the
   * ghost `U` has its entry `(i, k)` cleared.
   */
  method BackRow(Ac: Matrix, Xm: Matrix, i: nat, k: nat,
                 ghost A0: Mat, ghost B0: Mat, ghost F0: Mat, ghost U0: Mat, ghost exact0: bool)
    returns (ghost F: Mat, ghost U: Mat, ghost exact: bool)
    requires Ac.Valid() && Xm.Valid() && Ac.data != Xm.data
    requires Ac.w == Ac.h && Xm.h == Ac.h && i < k < Ac.h
    requires exact0 ==> Tracks(F0, U0, Xm.Value(), A0, B0, Ac.h)
    requires exact0 ==> UnitDiagonalUpTo(U0, Ac.h) && ZeroBelowUpTo(U0, Ac.h) && ZeroAboveFrom(U0, k + 1)
    requires exact0 ==> forall r, c :: 0 <= r < Ac.h && 0 <= c < k ==> U0[r][c] == Ac.Value()[r][c]
    requires exact0 ==> forall r :: i <= r < Ac.h ==> U0[r][k] == Ac.Value()[r][k]
    requires exact0 ==> forall r :: 0 <= r < i ==> U0[r][k] == 0.0
    modifies Xm.data
    ensures exact ==> exact0
    ensures exact ==> Tracks(F, U, Xm.Value(), A0, B0, Ac.h)
    ensures exact ==> UnitDiagonalUpTo(U, Ac.h) && ZeroBelowUpTo(U, Ac.h) && ZeroAboveFrom(U, k + 1)
    ensures exact ==> forall r, c :: 0 <= r < Ac.h && 0 <= c < k ==> U[r][c] == Ac.Value()[r][c]
    ensures exact ==> forall r :: i + 1 <= r < Ac.h ==> U[r][k] == Ac.Value()[r][k]
    ensures exact ==> forall r :: 0 <= r < i + 1 ==> U[r][k] == 0.0
    ensures var f := Ac.Value()[i][k];
      exact == (exact0 && (f == 0.0 || Abs(f) >= Tolerance))
    ensures var f := Ac.Value()[i][k];
      Xm.Value() == if Abs(f) < Tolerance then old(Xm.Value()) else SubRowFrom(old(Xm.Value()), i, k, 0, f)
  {
    var n := Ac.h;
    F, U, exact := F0, U0, exact0;
    var factor := Ac.Get(i, k);
    if Abs(factor) < Tolerance {
      if factor != 0.0 {
        exact := false;
      }
    } else {
      ghost var X := Xm.Value();
      SubtractRow(Xm, i, k, 0, factor);
      if exact {
        SubStepTracks(F, U, X, A0, B0, n, i, k, factor);
        BackStepKeepsShape(U, n, i, k, factor);
        F, U := AddCol(F, k, i, factor), SubRowFrom(U, i, k, 0, factor);
      }
    }
  }

  /**
   * Row `k` of `U` is the unit row `e_k`, so subtracting `U[i][k]` times it
   * from row `i` clears `U[i][k]` and changes nothing else.
   */
  lemma BackStepKeepsShape(U: Mat, n: nat, i: nat, k: nat, f: real)
    requires IsMat(U, n, n) && i < k < n && f == U[i][k]
    requires UnitDiagonalUpTo(U, n) && ZeroBelowUpTo(U, n) && ZeroAboveFrom(U, k + 1)
    ensures IsMat(SubRowFrom(U, i, k, 0, f), n, n)
    ensures forall r, c :: 0 <= r < n && 0 <= c < n ==>
      SubRowFrom(U, i, k, 0, f)[r][c] == if r == i && c == k then 0.0 else U[r][c]
  {
    forall c | 0 <= c < n ensures U[k][c] == if c == k then 1.0 else 0.0 {
    }
  }

  /** A matrix with ones on the diagonal and zeros elsewhere is the identity. */
  lemma UnitTriangularCleared(U: Mat, n: nat)
    requires IsMat(U, n, n) && UnitDiagonalUpTo(U, n) && ZeroBelowUpTo(U, n) && ZeroAboveFrom(U, 0)
    ensures U == Identity(n)
  {
    forall i, c | 0 <= i < n && 0 <= c < n ensures U[i][c] == Identity(n)[i][c] {
    }
    MatExt(U, Identity(n), n, n);
  }

  // ---------------------------------------------------------------------------
  // matrix_solve_gauss

  /** The checks of matrix_solve_gauss: both present, `A` square, as many rows in `B` as in `A`. */
  predicate SolveInputsOk(A: Matrix?, B: Matrix?)
  {
    A != null && B != null && A.h == A.w && B.h == A.h
  }

  /**
   * Back substitution: for each column `k` from the last, every row above
   * `k` loses `A_copy[i][k]` times row `k` of `X`. The copy of `A` is only
   * read. When exact, the result solves the original system.
   */
  method BackSubstitute(Ac: Matrix, Xm: Matrix, ghost A0: Mat, ghost B0: Mat, ghost F0: Mat, ghost exact0: bool)
    returns (ghost exact: bool)
    requires Ac.Valid() && Xm.Valid() && Ac.data != Xm.data
    requires Ac.w == Ac.h && Xm.h == Ac.h
    requires exact0 ==> Tracks(F0, Ac.Value(), Xm.Value(), A0, B0, Ac.h)
    requires exact0 ==> UnitDiagonalUpTo(Ac.Value(), Ac.h) && ZeroBelowUpTo(Ac.Value(), Ac.h)
    modifies Xm.data
    ensures exact ==> exact0
    ensures exact ==> IsMat(A0, Ac.h, Ac.h) && MatMul(A0, Xm.Value()) == B0
    ensures Reduction(Ac.Value(), Xm.Value(), exact) == BackFrom(Ac.Value(), old(Xm.Value()), Ac.h, Xm.w, exact0, Ac.h)
  {
    var n := Ac.h;
    ghost var F, U := F0, Ac.Value();
    ghost var X0 := Xm.Value();
    exact := exact0;
    var k := n;
    while k > 0
      invariant k <= n
      invariant exact ==> exact0
      invariant BackFrom(Ac.Value(), Xm.Value(), n, Xm.w, exact, k) == BackFrom(Ac.Value(), X0, n, Xm.w, exact0, n)
      invariant exact ==> Tracks(F, U, Xm.Value(), A0, B0, n)
      invariant exact ==> UnitDiagonalUpTo(U, n) && ZeroBelowUpTo(U, n) && ZeroAboveFrom(U, k)
      invariant exact ==> forall r, c :: 0 <= r < n && 0 <= c < k ==> U[r][c] == Ac.Value()[r][c]
    {
      k := k - 1;
      F, U, exact := BackColumn(Ac, Xm, k, A0, B0, F, U, exact);
    }
    if exact {
      UnitTriangularCleared(U, n);
      MatMulIdentityRight(F);
    }
  }

  /**
   * matrix_solve_gauss(A, B). Returns NULL on invalid inputs; on valid ones
   * it does what the model `GaussSolve` does. It returns NULL exactly when
   * the model gets stuck at some column `failCol`, where every candidate
   * pivot has magnitude below `Tolerance`; `reduced` is then the copy of `A`
   * at that point. Otherwise it returns the fresh `n`-by-`m` solution of the
   * model, and `reduced` is the final copy of `A`, with ones on its diagonal.
   * `A` and `B` are never modified. `exact` is the model's flag: it holds
   * when no nonzero factor was skipped. When it holds, `A * X == B` on
   * success, and on failure `F * reduced == A` with `reduced` upper unit
   * triangular left of `failCol`.
   */
  method Solve(A: Matrix?, B: Matrix?)
    returns (X: Matrix?, ghost exact: bool, ghost reduced: Mat, ghost F: Mat, ghost failCol: nat)
    requires ValidOrNull(A) && ValidOrNull(B)
    ensures !SolveInputsOk(A, B) ==> X == null
    ensures X != null ==> fresh(X) && fresh(X.data) && X.Valid() && X.h == A.h && X.w == B.w
    ensures X != null ==> IsMat(reduced, A.h, A.h) && UnitDiagonalUpTo(reduced, A.h)
    ensures X != null && exact ==> ZeroBelowUpTo(reduced, A.h)
    ensures X != null && exact ==> MatMul(A.Value(), X.Value()) == B.Value()
    ensures X == null && SolveInputsOk(A, B) ==>
      failCol < A.h && IsMat(reduced, A.h, A.h) &&
      forall i :: failCol <= i < A.h ==> Abs(reduced[i][failCol]) < Tolerance
    ensures X == null && SolveInputsOk(A, B) ==> UnitDiagonalUpTo(reduced, failCol)
    ensures X == null && SolveInputsOk(A, B) && exact ==>
      ZeroBelowUpTo(reduced, failCol) && IsMat(F, A.h, A.h) && MatMul(F, reduced) == A.Value()
    ensures SolveInputsOk(A, B) ==> (X == null <==> GaussSolve(A.Value(), B.Value(), A.h, B.w).Singular?)
    ensures X != null ==>
      var o := GaussSolve(A.Value(), B.Value(), A.h, B.w);
      X.Value() == o.X && reduced == o.U && exact == o.exact
    ensures X == null && SolveInputsOk(A, B) ==>
      var o := GaussSolve(A.Value(), B.Value(), A.h, B.w);
      reduced == o.U && failCol == o.col && exact == o.exact
  {
    exact, reduced, F, failCol := true, [], [], 0;
    if A == null || B == null {
      return null, exact, reduced, F, failCol;
    }
    var n := Rows(A);
    if n != Cols(A) {
      return null, exact, reduced, F, failCol;
    }
    if n != Rows(B) {
      return null, exact, reduced, F, failCol;
    }
    var Ac := Copy(A);
    X := Copy(B);
    var ok;
    ok, F, exact, failCol := ForwardPass(Ac, X, A.Value(), B.Value());
    reduced := Ac.Value();
    if !ok {
      return null, exact, reduced, F, failCol;
    }
    exact := BackSubstitute(Ac, X, A.Value(), B.Value(), F, exact);
  }

  // ---------------------------------------------------------------------------
  // matrix_check_solution

  /** `|p[j] - b[j]|` along a row. */
  function DiffRow(p: seq<real>, b: seq<real>): (d: seq<real>)
    requires |p| == |b|
    ensures |d| == |p|
  {
    seq(|p|, j requires 0 <= j < |p| => Abs(p[j] - b[j]))
  }

  /** The running maximum `if (x > max) max = x;` over `s`, starting from `m0`. */
  function MaxFrom(m0: real, s: seq<real>): real
  {
    if |s| == 0 then m0 else Max(MaxFrom(m0, s[..|s| - 1]), s[|s| - 1])
  }

  /** The running maximum after the first `i` rows of `|P - B|`, starting from 0. */
  function ResidualUpTo(P: Mat, B: Mat, i: nat): real
    requires i <= |P| && IsMat(B, |P|, Width(P)) && IsMat(P, |P|, Width(P))
  {
    if i == 0 then 0.0 else MaxFrom(ResidualUpTo(P, B, i - 1), DiffRow(P[i - 1], B[i - 1]))
  }

  /** The largest entry of `|P - B|` (0 for no entries). */
  function Residual(P: Mat, B: Mat): real
    requires IsMat(B, |P|, Width(P)) && IsMat(P, |P|, Width(P))
  {
    ResidualUpTo(P, B, |P|)
  }

  /** The running maximum is at least its start and every element, and equals one of them. */
  lemma {:induction false} MaxFromIsMax(m0: real, s: seq<real>)
    ensures MaxFrom(m0, s) >= m0
    ensures forall j :: 0 <= j < |s| ==> s[j] <= MaxFrom(m0, s)
    ensures MaxFrom(m0, s) == m0 || exists j :: 0 <= j < |s| && MaxFrom(m0, s) == s[j]
  {
    if |s| > 0 {
      var n := |s| - 1;
      MaxFromIsMax(m0, s[..n]);
      if MaxFrom(m0, s[..n]) != m0 {
        var j :| 0 <= j < n && MaxFrom(m0, s[..n]) == s[..n][j];
        assert s[j] == s[..n][j];
      }
    }
  }

  lemma {:induction false} ResidualUpToBounds(P: Mat, B: Mat, i: nat)
    requires i <= |P| && IsMat(B, |P|, Width(P)) && IsMat(P, |P|, Width(P))
    ensures ResidualUpTo(P, B, i) >= 0.0
    ensures forall r, c :: 0 <= r < i && 0 <= c < Width(P) ==> Abs(P[r][c] - B[r][c]) <= ResidualUpTo(P, B, i)
  {
    if i > 0 {
      ResidualUpToBounds(P, B, i - 1);
      var d := DiffRow(P[i - 1], B[i - 1]);
      MaxFromIsMax(ResidualUpTo(P, B, i - 1), d);
      forall r, c | 0 <= r < i && 0 <= c < Width(P)
        ensures Abs(P[r][c] - B[r][c]) <= ResidualUpTo(P, B, i)
      {
        if r == i - 1 {
          assert d[c] == Abs(P[r][c] - B[r][c]);
        }
      }
    }
  }

  lemma {:induction false} ResidualUpToAttained(P: Mat, B: Mat, i: nat)
    requires i <= |P| && IsMat(B, |P|, Width(P)) && IsMat(P, |P|, Width(P))
    ensures ResidualUpTo(P, B, i) == 0.0 ||
      exists r, c :: 0 <= r < i && 0 <= c < Width(P) && ResidualUpTo(P, B, i) == Abs(P[r][c] - B[r][c])
  {
    if i > 0 {
      ResidualUpToAttained(P, B, i - 1);
      var d := DiffRow(P[i - 1], B[i - 1]);
      MaxFromIsMax(ResidualUpTo(P, B, i - 1), d);
      if ResidualUpTo(P, B, i) != ResidualUpTo(P, B, i - 1) {
        var c :| 0 <= c < |d| && ResidualUpTo(P, B, i) == d[c];
        assert d[c] == Abs(P[i - 1][c] - B[i - 1][c]);
      }
    }
  }

  /**
   * The residual is never negative, bounds every entry of `|P - B|`, and is
   * attained by one of them (or is 0).
   */
  lemma ResidualIsMax(P: Mat, B: Mat)
    requires IsMat(B, |P|, Width(P)) && IsMat(P, |P|, Width(P))
    ensures Residual(P, B) >= 0.0
    ensures forall r, c :: 0 <= r < |P| && 0 <= c < Width(P) ==> Abs(P[r][c] - B[r][c]) <= Residual(P, B)
    ensures Residual(P, B) == 0.0 ||
      exists r, c :: 0 <= r < |P| && 0 <= c < Width(P) && Residual(P, B) == Abs(P[r][c] - B[r][c])
  {
    ResidualUpToBounds(P, B, |P|);
    ResidualUpToAttained(P, B, |P|);
  }

  /** The residual is 0 exactly when the two matrices are equal. */
  lemma ResidualZeroIff(P: Mat, B: Mat)
    requires IsMat(B, |P|, Width(P)) && IsMat(P, |P|, Width(P))
    ensures Residual(P, B) == 0.0 <==> P == B
  {
    ResidualIsMax(P, B);
    if Residual(P, B) == 0.0 {
      forall r, c | 0 <= r < |P| && 0 <= c < Width(P) ensures P[r][c] == B[r][c] {
        assert Abs(P[r][c] - B[r][c]) <= 0.0;
      }
      MatExt(P, B, |P|, Width(P));
    } else {
      var r, c :| 0 <= r < |P| && 0 <= c < Width(P) && Residual(P, B) == Abs(P[r][c] - B[r][c]);
    }
  }

  /**
   * The comparison loop of matrix_check_solution: the running maximum of
   * `|P[i][j] - B[i][j]|` over all entries, row by row, starting from 0.
   */
  method LargestDifference(P: Matrix, B: Matrix) returns (maxDiff: real)
    requires P.Valid() && B.Valid() && P.h == B.h && P.w == B.w
    ensures maxDiff == Residual(P.Value(), B.Value())
  {
    ghost var PV, BV := P.Value(), B.Value();
    maxDiff := 0.0;
    var rows, cols := Rows(P), Cols(P);
    var i := 0;
    while i < rows
      invariant i <= rows
      invariant maxDiff == ResidualUpTo(PV, BV, i)
    {
      var j := 0;
      ghost var d := DiffRow(PV[i], BV[i]);
      while j < cols
        invariant j <= cols
        invariant maxDiff == MaxFrom(ResidualUpTo(PV, BV, i), d[..j])
      {
        var diff := Abs(P.Get(i, j) - B.Get(i, j));
        assert diff == d[j];
        assert d[..j + 1][..j] == d[..j];
        if diff > maxDiff {
          maxDiff := diff;
        }
        j := j + 1;
      }
      assert d[..j] == d;
      i := i + 1;
    }
  }

  /** The checks of matrix_check_solution: all present and `A * X` comparable with `B`. */
  predicate CheckInputsOk(A: Matrix?, B: Matrix?, X: Matrix?)
  {
    A != null && B != null && X != null && A.h == B.h && A.w == X.h && B.w == X.w
  }

  /**
   * matrix_check_solution(A, B, X): -1 on a NULL operand or mismatched
   * shapes; else the largest `|(A * X)[i][j] - B[i][j]|`, which is 0 exactly
   * when `X` solves `A * X = B`.
   */
  method CheckSolution(A: Matrix?, B: Matrix?, X: Matrix?) returns (r: real)
    requires ValidOrNull(A) && ValidOrNull(B) && ValidOrNull(X)
    ensures !CheckInputsOk(A, B, X) ==> r == -1.0
    ensures CheckInputsOk(A, B, X) ==> r == Residual(MatMul(A.Value(), X.Value()), B.Value())
    ensures CheckInputsOk(A, B, X) ==> r >= 0.0 && (r == 0.0 <==> MatMul(A.Value(), X.Value()) == B.Value())
  {
    if A == null || B == null || X == null {
      return -1.0;
    }
    if Rows(A) != Rows(B) || Cols(A) != Rows(X) || Cols(B) != Cols(X) {
      return -1.0;
    }
    var AX := Alloc(Cols(X), Rows(A));
    var status := GaussMultiply(AX, A, X);
    assert status == 0;
    assert AX.Value() == MatMul(A.Value(), X.Value());
    r := LargestDifference(AX, B);
    ResidualIsMax(AX.Value(), B.Value());
    ResidualZeroIff(AX.Value(), B.Value());
  }
}
