/**
 * The three systems the library's demonstration program hands to
 * matrix_solve_gauss, worked through the model of the algorithm step by
 * step: a 3-by-3 system with one right-hand side, a 2-by-2 system with two
 * right-hand sides, and a singular 2-by-2 system.
 */
module GaussFixtures {
  import opened Sums
  import opened LinearAlgebra
  import opened RowOps
  import opened GaussSpec

  // ---------------------------------------------------------------------------
  // One right-hand side: 2x + y - z = 8, x + 3y + 2z = 9, x = 3

  /** The first column: pivot in row 0, row 0 halved, then rows 1 and 2 cleared. */
  lemma SimpleFirstColumn()
    ensures ColumnStep([[2.0, 1.0, -1.0], [1.0, 3.0, 2.0], [1.0, 0.0, 0.0]], [[8.0], [9.0], [3.0]], 3, 1, true, 0, 0) ==
      Reduction([[1.0, 0.5, -0.5], [0.0, 2.5, 2.5], [0.0, -0.5, 0.5]], [[4.0], [5.0], [-1.0]], true)
  {
    var A: Mat, B: Mat := [[2.0, 1.0, -1.0], [1.0, 3.0, 2.0], [1.0, 0.0, 0.0]], [[8.0], [9.0], [3.0]];
    var D := DivRowFrom(A, 0, 0, 2.0);
    assert D[0][0] == 1.0 && D[0][1] == 0.5 && D[0][2] == -0.5;
    assert D[0] == [1.0, 0.5, -0.5];
    var DX := DivRowFrom(B, 0, 0, 2.0);
    assert DX[0][0] == 4.0;
    assert DX[0] == [4.0];
    var E := SubRowFrom(D, 1, 0, 0, 1.0);
    assert E[1][0] == 0.0 && E[1][1] == 2.5 && E[1][2] == 2.5;
    assert E[1] == [0.0, 2.5, 2.5];
    var EX := SubRowFrom(DX, 1, 0, 0, 1.0);
    assert EX[1][0] == 5.0;
    assert EX[1] == [5.0];
    var G := SubRowFrom(E, 2, 0, 0, 1.0);
    assert G[2][0] == 0.0 && G[2][1] == -0.5 && G[2][2] == 0.5;
    assert G[2] == [0.0, -0.5, 0.5];
    assert G == [[1.0, 0.5, -0.5], [0.0, 2.5, 2.5], [0.0, -0.5, 0.5]];
    var GX := SubRowFrom(EX, 2, 0, 0, 1.0);
    assert GX[2][0] == -1.0;
    assert GX[2] == [-1.0];
    assert GX == [[4.0], [5.0], [-1.0]];
    assert EliminateFrom(D, DX, 3, 1, true, 0, 1) == EliminateFrom(E, EX, 3, 1, true, 0, 2);
    assert EliminateFrom(E, EX, 3, 1, true, 0, 2) == EliminateFrom(G, GX, 3, 1, true, 0, 3);
  }

  /** The second column: pivot in row 1, row 1 divided by 2.5, then row 2 cleared. */
  lemma SimpleSecondColumn()
    ensures ColumnStep([[1.0, 0.5, -0.5], [0.0, 2.5, 2.5], [0.0, -0.5, 0.5]], [[4.0], [5.0], [-1.0]], 3, 1, true, 1, 1) ==
      Reduction([[1.0, 0.5, -0.5], [0.0, 1.0, 1.0], [0.0, 0.0, 1.0]], [[4.0], [2.0], [0.0]], true)
  {
    var U: Mat, X: Mat := [[1.0, 0.5, -0.5], [0.0, 2.5, 2.5], [0.0, -0.5, 0.5]], [[4.0], [5.0], [-1.0]];
    var D := DivRowFrom(U, 1, 1, 2.5);
    assert D[1][0] == 0.0 && D[1][1] == 1.0 && D[1][2] == 1.0;
    assert D[1] == [0.0, 1.0, 1.0];
    var DX := DivRowFrom(X, 1, 0, 2.5);
    assert DX[1][0] == 2.0;
    assert DX[1] == [2.0];
    var E := SubRowFrom(D, 2, 1, 1, -0.5);
    assert E[2][0] == 0.0 && E[2][1] == 0.0 && E[2][2] == 1.0;
    assert E[2] == [0.0, 0.0, 1.0];
    assert E == [[1.0, 0.5, -0.5], [0.0, 1.0, 1.0], [0.0, 0.0, 1.0]];
    var EX := SubRowFrom(DX, 2, 1, 0, -0.5);
    assert EX[2][0] == 0.0;
    assert EX[2] == [0.0];
    assert EX == [[4.0], [2.0], [0.0]];
    assert EliminateFrom(D, DX, 3, 1, true, 1, 2) == EliminateFrom(E, EX, 3, 1, true, 1, 3);
  }

  /** The third column: the pivot is already one, and nothing lies below it. */
  lemma SimpleThirdColumn()
    ensures ColumnStep([[1.0, 0.5, -0.5], [0.0, 1.0, 1.0], [0.0, 0.0, 1.0]], [[4.0], [2.0], [0.0]], 3, 1, true, 2, 2) ==
      Reduction([[1.0, 0.5, -0.5], [0.0, 1.0, 1.0], [0.0, 0.0, 1.0]], [[4.0], [2.0], [0.0]], true)
  {
    var U: Mat, X: Mat := [[1.0, 0.5, -0.5], [0.0, 1.0, 1.0], [0.0, 0.0, 1.0]], [[4.0], [2.0], [0.0]];
    var D := DivRowFrom(U, 2, 2, 1.0);
    assert D[2][0] == 0.0 && D[2][1] == 0.0 && D[2][2] == 1.0;
    assert D[2] == [0.0, 0.0, 1.0];
    assert D == U;
    var DX := DivRowFrom(X, 2, 0, 1.0);
    assert DX[2][0] == 0.0;
    assert DX[2] == [0.0];
    assert DX == X;
  }

  /** The backward pass: column 2 leaves `X` as it is, column 1 takes 0.5 times 2 off the first entry. */
  lemma SimpleBackPass()
    ensures BackFrom([[1.0, 0.5, -0.5], [0.0, 1.0, 1.0], [0.0, 0.0, 1.0]], [[4.0], [2.0], [0.0]], 3, 1, true, 3) ==
      Reduction([[1.0, 0.5, -0.5], [0.0, 1.0, 1.0], [0.0, 0.0, 1.0]], [[3.0], [2.0], [0.0]], true)
  {
    var U: Mat, X: Mat := [[1.0, 0.5, -0.5], [0.0, 1.0, 1.0], [0.0, 0.0, 1.0]], [[4.0], [2.0], [0.0]];
    var X1 := SubRowFrom(X, 0, 2, 0, -0.5);
    assert X1[0][0] == 4.0;
    assert X1[0] == [4.0];
    assert X1 == X;
    var X2 := SubRowFrom(X1, 1, 2, 0, 1.0);
    assert X2[1][0] == 2.0;
    assert X2[1] == [2.0];
    assert X2 == X;
    assert BackRowsFrom(U, X, 3, 1, true, 2, 0) == Reduction(U, X, true);
    var X3 := SubRowFrom(X, 0, 1, 0, 0.5);
    assert X3[0][0] == 3.0;
    assert X3[0] == [3.0];
    assert X3 == [[3.0], [2.0], [0.0]];
    assert BackRowsFrom(U, X, 3, 1, true, 1, 0) == Reduction(U, X3, true);
    assert BackFrom(U, X, 3, 1, true, 3) == BackFrom(U, X, 3, 1, true, 2);
    assert BackFrom(U, X, 3, 1, true, 2) == BackFrom(U, X3, 3, 1, true, 1);
  }

  /** The 3-by-3 system is solved exactly, with `x = 3, y = 2, z = 0`. */
  lemma SimpleSystem()
    ensures GaussSolve([[2.0, 1.0, -1.0], [1.0, 3.0, 2.0], [1.0, 0.0, 0.0]], [[8.0], [9.0], [3.0]], 3, 1) ==
      Solved([[3.0], [2.0], [0.0]], [[1.0, 0.5, -0.5], [0.0, 1.0, 1.0], [0.0, 0.0, 1.0]], true)
  {
    var A: Mat, B: Mat := [[2.0, 1.0, -1.0], [1.0, 3.0, 2.0], [1.0, 0.0, 0.0]], [[8.0], [9.0], [3.0]];
    var U1: Mat, X1: Mat := [[1.0, 0.5, -0.5], [0.0, 2.5, 2.5], [0.0, -0.5, 0.5]], [[4.0], [5.0], [-1.0]];
    var U: Mat, X2: Mat := [[1.0, 0.5, -0.5], [0.0, 1.0, 1.0], [0.0, 0.0, 1.0]], [[4.0], [2.0], [0.0]];
    SimpleFirstColumn();
    SimpleSecondColumn();
    SimpleThirdColumn();
    SimpleBackPass();
    assert Pivot(A, 3, 0) == 0;
    assert Pivot(U1, 3, 1) == 1;
    assert Pivot(U, 3, 2) == 2;
    ForwardFromStep(A, B, 3, 1, true, 0);
    ForwardFromStep(U1, X1, 3, 1, true, 1);
    ForwardFromStep(U, X2, 3, 1, true, 2);
    assert ForwardFrom(A, B, 3, 1, true, 0) == Reduced(Reduction(U, X2, true));
  }

  // ---------------------------------------------------------------------------
  // Two right-hand sides: A = [[1, 2], [3, 4]], B = [[5, 4], [11, 10]]

  /** The first column: the pivot 3 is in row 1, so rows 0 and 1 are exchanged first. */
  lemma MultiFirstColumn()
    ensures ColumnStep([[1.0, 2.0], [3.0, 4.0]], [[5.0, 4.0], [11.0, 10.0]], 2, 2, true, 0, 1) ==
      Reduction([[1.0, 4.0 / 3.0], [0.0, 2.0 / 3.0]], [[11.0 / 3.0, 10.0 / 3.0], [4.0 / 3.0, 2.0 / 3.0]], true)
  {
    var A: Mat, B: Mat := [[1.0, 2.0], [3.0, 4.0]], [[5.0, 4.0], [11.0, 10.0]];
    var S := SwapRows(A, 0, 1);
    assert S == [[3.0, 4.0], [1.0, 2.0]];
    var SX := SwapRows(B, 0, 1);
    assert SX == [[11.0, 10.0], [5.0, 4.0]];
    var D := DivRowFrom(S, 0, 0, 3.0);
    assert D[0][0] == 1.0 && D[0][1] == 4.0 / 3.0;
    assert D[0] == [1.0, 4.0 / 3.0];
    var DX := DivRowFrom(SX, 0, 0, 3.0);
    assert DX[0][0] == 11.0 / 3.0 && DX[0][1] == 10.0 / 3.0;
    assert DX[0] == [11.0 / 3.0, 10.0 / 3.0];
    var E := SubRowFrom(D, 1, 0, 0, 1.0);
    assert E[1][0] == 0.0 && E[1][1] == 2.0 / 3.0;
    assert E[1] == [0.0, 2.0 / 3.0];
    assert E == [[1.0, 4.0 / 3.0], [0.0, 2.0 / 3.0]];
    var EX := SubRowFrom(DX, 1, 0, 0, 1.0);
    assert EX[1][0] == 4.0 / 3.0 && EX[1][1] == 2.0 / 3.0;
    assert EX[1] == [4.0 / 3.0, 2.0 / 3.0];
    assert EX == [[11.0 / 3.0, 10.0 / 3.0], [4.0 / 3.0, 2.0 / 3.0]];
    assert EliminateFrom(D, DX, 2, 2, true, 0, 1) == EliminateFrom(E, EX, 2, 2, true, 0, 2);
  }

  /** The second column: row 1 divided by 2/3, nothing below it. */
  lemma MultiSecondColumn()
    ensures ColumnStep([[1.0, 4.0 / 3.0], [0.0, 2.0 / 3.0]], [[11.0 / 3.0, 10.0 / 3.0], [4.0 / 3.0, 2.0 / 3.0]], 2, 2, true, 1, 1) ==
      Reduction([[1.0, 4.0 / 3.0], [0.0, 1.0]], [[11.0 / 3.0, 10.0 / 3.0], [2.0, 1.0]], true)
  {
    var U: Mat, X: Mat := [[1.0, 4.0 / 3.0], [0.0, 2.0 / 3.0]], [[11.0 / 3.0, 10.0 / 3.0], [4.0 / 3.0, 2.0 / 3.0]];
    var D := DivRowFrom(U, 1, 1, 2.0 / 3.0);
    assert D[1][0] == 0.0 && D[1][1] == 1.0;
    assert D[1] == [0.0, 1.0];
    assert D == [[1.0, 4.0 / 3.0], [0.0, 1.0]];
    var DX := DivRowFrom(X, 1, 0, 2.0 / 3.0);
    assert DX[1][0] == 2.0 && DX[1][1] == 1.0;
    assert DX[1] == [2.0, 1.0];
    assert DX == [[11.0 / 3.0, 10.0 / 3.0], [2.0, 1.0]];
  }

  /** The backward pass: row 0 of `X` loses 4/3 times row 1. */
  lemma MultiBackPass()
    ensures BackFrom([[1.0, 4.0 / 3.0], [0.0, 1.0]], [[11.0 / 3.0, 10.0 / 3.0], [2.0, 1.0]], 2, 2, true, 2) ==
      Reduction([[1.0, 4.0 / 3.0], [0.0, 1.0]], [[1.0, 2.0], [2.0, 1.0]], true)
  {
    var U: Mat, X: Mat := [[1.0, 4.0 / 3.0], [0.0, 1.0]], [[11.0 / 3.0, 10.0 / 3.0], [2.0, 1.0]];
    var X1 := SubRowFrom(X, 0, 1, 0, 4.0 / 3.0);
    assert X1[0][0] == 1.0 && X1[0][1] == 2.0;
    assert X1[0] == [1.0, 2.0];
    assert X1 == [[1.0, 2.0], [2.0, 1.0]];
    assert BackRowsFrom(U, X, 2, 2, true, 1, 0) == Reduction(U, X1, true);
    assert BackFrom(U, X, 2, 2, true, 2) == BackFrom(U, X1, 2, 2, true, 1);
  }

  /** The system with two right-hand sides is solved exactly, and the solution satisfies `A * X == B`. */
  lemma MultiSystem()
    ensures GaussSolve([[1.0, 2.0], [3.0, 4.0]], [[5.0, 4.0], [11.0, 10.0]], 2, 2) ==
      Solved([[1.0, 2.0], [2.0, 1.0]], [[1.0, 4.0 / 3.0], [0.0, 1.0]], true)
    ensures MatMul([[1.0, 2.0], [3.0, 4.0]], [[1.0, 2.0], [2.0, 1.0]]) == [[5.0, 4.0], [11.0, 10.0]]
  {
    var A: Mat, B: Mat := [[1.0, 2.0], [3.0, 4.0]], [[5.0, 4.0], [11.0, 10.0]];
    var U1: Mat, X1: Mat := [[1.0, 4.0 / 3.0], [0.0, 2.0 / 3.0]], [[11.0 / 3.0, 10.0 / 3.0], [4.0 / 3.0, 2.0 / 3.0]];
    var U: Mat, X2: Mat := [[1.0, 4.0 / 3.0], [0.0, 1.0]], [[11.0 / 3.0, 10.0 / 3.0], [2.0, 1.0]];
    MultiFirstColumn();
    MultiSecondColumn();
    MultiBackPass();
    assert Pivot(A, 2, 0) == 1;
    assert Pivot(U1, 2, 1) == 1;
    ForwardFromStep(A, B, 2, 2, true, 0);
    ForwardFromStep(U1, X1, 2, 2, true, 1);
    assert ForwardFrom(A, B, 2, 2, true, 0) == Reduced(Reduction(U, X2, true));
    MultiProduct();
  }

  /** Entry by entry: `[[1, 2], [3, 4]] * [[1, 2], [2, 1]] == [[5, 4], [11, 10]]`. */
  lemma MultiProduct()
    ensures MatMul([[1.0, 2.0], [3.0, 4.0]], [[1.0, 2.0], [2.0, 1.0]]) == [[5.0, 4.0], [11.0, 10.0]]
  {
    var A: Mat, X: Mat := [[1.0, 2.0], [3.0, 4.0]], [[1.0, 2.0], [2.0, 1.0]];
    forall i, j | 0 <= i < 2 && 0 <= j < 2
      ensures Dot(A, X, i, j) == A[i][0] * X[0][j] + A[i][1] * X[1][j]
    {
      var t := Terms(A, X, i, j);
      assert t[..1][..0] == [];
      assert Sum(t[..1]) == t[0];
      assert t[..|t| - 1] == t[..1];
      assert Sum(t) == t[0] + t[1];
    }
    var P := MatMul(A, X);
    assert P[0][0] == 5.0 && P[0][1] == 4.0 && P[1][0] == 11.0 && P[1][1] == 10.0;
    assert P[0] == [5.0, 4.0] && P[1] == [11.0, 10.0];
  }

  // ---------------------------------------------------------------------------
  // A singular system: A = [[1, 2], [2, 4]], B = [[5], [10]]

  /**
   * The second row of `A` is twice the first: after the first column every
   * candidate pivot in column 1 is zero, so the solver reports failure there.
   */
  lemma SingularSystem()
    ensures GaussSolve([[1.0, 2.0], [2.0, 4.0]], [[5.0], [10.0]], 2, 1) == Singular([[1.0, 2.0], [0.0, 0.0]], 1, true)
  {
    var A: Mat, B: Mat := [[1.0, 2.0], [2.0, 4.0]], [[5.0], [10.0]];
    assert Pivot(A, 2, 0) == 1;
    var S := SwapRows(A, 0, 1);
    assert S == [[2.0, 4.0], [1.0, 2.0]];
    var U1: Mat, X1: Mat := [[1.0, 2.0], [1.0, 2.0]], [[5.0], [5.0]];
    var D := DivRowFrom(S, 0, 0, 2.0);
    assert D[0][0] == 1.0 && D[0][1] == 2.0;
    assert D[0] == [1.0, 2.0];
    assert D == U1;
    var SX := SwapRows(B, 0, 1);
    var DX := DivRowFrom(SX, 0, 0, 2.0);
    assert DX[0][0] == 5.0;
    assert DX[0] == [5.0];
    assert DX == X1;
    var U2: Mat, X2: Mat := [[1.0, 2.0], [0.0, 0.0]], [[5.0], [0.0]];
    var E := SubRowFrom(U1, 1, 0, 0, 1.0);
    assert E[1][0] == 0.0 && E[1][1] == 0.0;
    assert E[1] == [0.0, 0.0];
    assert E == U2;
    var EX := SubRowFrom(X1, 1, 0, 0, 1.0);
    assert EX[1][0] == 0.0;
    assert EX[1] == [0.0];
    assert EX == X2;
    assert EliminateFrom(U1, X1, 2, 1, true, 0, 1) == Reduction(U2, X2, true);
    assert ColumnStep(A, B, 2, 1, true, 0, 1) == Reduction(U2, X2, true);
    assert Pivot(U2, 2, 1) == 1;
    assert ForwardFrom(U2, X2, 2, 1, true, 1) == Stuck(Reduction(U2, X2, true), 1);
    assert ForwardFrom(A, B, 2, 1, true, 0) == Stuck(Reduction(U2, X2, true), 1);
  }
}
