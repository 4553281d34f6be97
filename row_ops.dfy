/**
 * The elementary row operations Gaussian elimination performs on the
 * coefficient copy and on the right-hand sides, and the column operations
 * that undo them from the other side of a product. Whenever rows of `U` are
 * transformed and the matching column operation is applied to `F`, the
 * product `F * U` is unchanged; this is how the solver keeps track of the
 * original system.
 */
module RowOps {
  import opened Sums
  import opened LinearAlgebra

  // ---------------------------------------------------------------------------
  // Row operations

  /** Rows `r1` and `r2` exchanged. */
  function SwapRows(M: Mat, r1: nat, r2: nat): (S: Mat)
    requires r1 < |M| && r2 < |M|
    ensures |S| == |M|
  {
    M[r1 := M[r2]][r2 := M[r1]]
  }

  /** Row `k` divided by `d` in the columns from `from` on. */
  function DivRowFrom(M: Mat, k: nat, from: nat, d: real): (S: Mat)
    requires k < |M| && d != 0.0
    ensures |S| == |M|
  {
    M[k := seq(|M[k]|, j requires 0 <= j < |M[k]| => if j >= from then M[k][j] / d else M[k][j])]
  }

  /** `f` times row `k` subtracted from row `i`, in the columns from `from` on. */
  function SubRowFrom(M: Mat, i: nat, k: nat, from: nat, f: real): (S: Mat)
    requires i < |M| && k < |M| && |M[i]| == |M[k]|
    ensures |S| == |M|
  {
    M[i := seq(|M[i]|, j requires 0 <= j < |M[i]| => if j >= from then M[i][j] - f * M[k][j] else M[i][j])]
  }

  /** Exchanging the same two rows twice restores the matrix; a row with itself changes nothing. */
  lemma SwapRowsInvolution(M: Mat, r1: nat, r2: nat)
    requires r1 < |M| && r2 < |M|
    ensures SwapRows(SwapRows(M, r1, r2), r1, r2) == M
    ensures r1 == r2 ==> SwapRows(M, r1, r2) == M
  {
  }

  /** A row exchange is a permutation of the rows: it exchanges `r1` and `r2` and keeps the rest. */
  lemma SwapRowsPermutes(M: Mat, r1: nat, r2: nat)
    requires r1 < |M| && r2 < |M|
    ensures multiset(SwapRows(M, r1, r2)) == multiset(M)
    ensures SwapRows(M, r1, r2)[r1] == M[r2] && SwapRows(M, r1, r2)[r2] == M[r1]
    ensures forall i :: 0 <= i < |M| && i != r1 && i != r2 ==> SwapRows(M, r1, r2)[i] == M[i]
  {
    if r1 != r2 {
      calc {
        multiset(SwapRows(M, r1, r2));
        multiset(M[r1 := M[r2]]) - multiset{M[r1 := M[r2]][r2]} + multiset{M[r1]};
        multiset(M) - multiset{M[r1]} + multiset{M[r2]} - multiset{M[r2]} + multiset{M[r1]};
        multiset(M);
      }
    }
  }

  /** When row `k` is zero left of `from`, dividing from `from` on divides the whole row. */
  lemma DivRowFromWhole(M: Mat, k: nat, from: nat, d: real)
    requires k < |M| && d != 0.0
    requires forall c :: 0 <= c < from && c < |M[k]| ==> M[k][c] == 0.0
    ensures DivRowFrom(M, k, from, d) == DivRowFrom(M, k, 0, d)
  {
    assert DivRowFrom(M, k, from, d)[k] == DivRowFrom(M, k, 0, d)[k];
  }

  /** When row `k` is zero left of `from`, subtracting from `from` on subtracts the whole row. */
  lemma SubRowFromWhole(M: Mat, i: nat, k: nat, from: nat, f: real)
    requires i < |M| && k < |M| && |M[i]| == |M[k]|
    requires forall c :: 0 <= c < from && c < |M[k]| ==> M[k][c] == 0.0
    ensures SubRowFrom(M, i, k, from, f) == SubRowFrom(M, i, k, 0, f)
  {
    assert SubRowFrom(M, i, k, from, f)[i] == SubRowFrom(M, i, k, 0, f)[i];
  }

  /** A matrix that agrees with `M` except in row `k`, where it holds `M[k][c] / d` from `from` on, is `DivRowFrom(M, k, from, d)`. */
  lemma DivRowFromEntries(M: Mat, V: Mat, h: nat, w: nat, k: nat, from: nat, d: real)
    requires IsMat(M, h, w) && IsMat(V, h, w) && k < h && d != 0.0
    requires forall r :: 0 <= r < h && r != k ==> V[r] == M[r]
    requires forall c :: 0 <= c < w ==> V[k][c] == if from <= c then M[k][c] / d else M[k][c]
    ensures V == DivRowFrom(M, k, from, d)
  {
    var S := DivRowFrom(M, k, from, d);
    assert S[k] == V[k];
    forall r | 0 <= r < h ensures V[r] == S[r] {
    }
  }

  /** A matrix that agrees with `M` except in row `i`, where it holds `M[i][c] - f * M[k][c]` from `from` on, is `SubRowFrom(M, i, k, from, f)`. */
  lemma SubRowFromEntries(M: Mat, V: Mat, h: nat, w: nat, i: nat, k: nat, from: nat, f: real)
    requires IsMat(M, h, w) && IsMat(V, h, w) && i < h && k < h
    requires forall r :: 0 <= r < h && r != i ==> V[r] == M[r]
    requires forall c :: 0 <= c < w ==> V[i][c] == if from <= c then M[i][c] - f * M[k][c] else M[i][c]
    ensures V == SubRowFrom(M, i, k, from, f)
  {
    var S := SubRowFrom(M, i, k, from, f);
    forall c | 0 <= c < w ensures S[i][c] == V[i][c] {
    }
    assert S[i] == V[i];
    forall r | 0 <= r < h ensures V[r] == S[r] {
    }
  }

  // ---------------------------------------------------------------------------
  // Column operations that undo them

  /** Columns `c1` and `c2` exchanged. */
  function SwapCols(F: Mat, c1: nat, c2: nat): (S: Mat)
    requires IsMat(F, |F|, Width(F)) && c1 < Width(F) && c2 < Width(F)
    ensures IsMat(S, |F|, Width(F))
  {
    seq(|F|, a requires 0 <= a < |F| => F[a][c1 := F[a][c2]][c2 := F[a][c1]])
  }

  /** Column `k` multiplied by `d`. */
  function ScaleCol(F: Mat, k: nat, d: real): (S: Mat)
    requires IsMat(F, |F|, Width(F)) && k < Width(F)
    ensures IsMat(S, |F|, Width(F))
  {
    seq(|F|, a requires 0 <= a < |F| => F[a][k := F[a][k] * d])
  }

  /** `f` times column `i` added to column `k`. */
  function AddCol(F: Mat, k: nat, i: nat, f: real): (S: Mat)
    requires IsMat(F, |F|, Width(F)) && k < Width(F) && i < Width(F)
    ensures IsMat(S, |F|, Width(F))
  {
    seq(|F|, a requires 0 <= a < |F| => F[a][k := F[a][k] + f * F[a][i]])
  }

  /** The shape both sides of an undo law share: `F` is `p`-by-`n`, `U` is `n`-by-`q`. */
  predicate Chain(F: Mat, U: Mat, n: nat)
  {
    n > 0 && |F| > 0 && IsMat(F, |F|, n) && IsMat(U, n, Width(U))
  }

  /** Exchanging columns of `F` undoes exchanging rows of `U`. */
  lemma SwapUndo(F: Mat, U: Mat, n: nat, r1: nat, r2: nat)
    requires Chain(F, U, n) && r1 < n && r2 < n
    ensures Chain(SwapCols(F, r1, r2), SwapRows(U, r1, r2), n)
    ensures MatMul(SwapCols(F, r1, r2), SwapRows(U, r1, r2)) == MatMul(F, U)
  {
    var F2, U2 := SwapCols(F, r1, r2), SwapRows(U, r1, r2);
    assert IsMat(U2, n, Width(U));
    forall a, b | 0 <= a < |F| && 0 <= b < Width(U)
      ensures MatMul(F2, U2)[a][b] == MatMul(F, U)[a][b]
    {
      SwapUndoEntry(F, U, n, r1, r2, a, b);
    }
    MatExt(MatMul(F2, U2), MatMul(F, U), |F|, Width(U));
  }

  lemma SwapUndoEntry(F: Mat, U: Mat, n: nat, r1: nat, r2: nat, a: nat, b: nat)
    requires Chain(F, U, n) && r1 < n && r2 < n && a < |F| && b < Width(U)
    requires IsMat(SwapRows(U, r1, r2), n, Width(U))
    ensures Dot(SwapCols(F, r1, r2), SwapRows(U, r1, r2), a, b) == Dot(F, U, a, b)
  {
    var t := Terms(F, U, a, b);
    var t2 := Terms(SwapCols(F, r1, r2), SwapRows(U, r1, r2), a, b);
    var F2, U2 := SwapCols(F, r1, r2), SwapRows(U, r1, r2);
    if r1 == r2 {
      forall s | 0 <= s < n ensures t2[s] == t[s] {
        assert F2[a][s] == F[a][s] && U2[s] == U[s];
      }
      assert t2 == t;
    } else {
      var e := t[r1 := t[r2]][r2 := t[r1]];
      forall s | 0 <= s < n ensures t2[s] == e[s] {
        assert F2[a][s] == F[a][if s == r1 then r2 else if s == r2 then r1 else s];
      }
      assert t2 == e;
      SumUpdate(t, r1, t[r2]);
      SumUpdate(t[r1 := t[r2]], r2, t[r1]);
    }
  }

  /** Multiplying a column of `F` by `d` undoes dividing the matching row of `U` by `d`. */
  lemma DivUndo(F: Mat, U: Mat, n: nat, k: nat, d: real)
    requires Chain(F, U, n) && k < n && d != 0.0
    ensures Chain(ScaleCol(F, k, d), DivRowFrom(U, k, 0, d), n)
    ensures MatMul(ScaleCol(F, k, d), DivRowFrom(U, k, 0, d)) == MatMul(F, U)
  {
    var F2, U2 := ScaleCol(F, k, d), DivRowFrom(U, k, 0, d);
    assert IsMat(U2, n, Width(U));
    forall a, b | 0 <= a < |F| && 0 <= b < Width(U)
      ensures MatMul(F2, U2)[a][b] == MatMul(F, U)[a][b]
    {
      DivUndoEntry(F, U, n, k, d, a, b);
    }
    MatExt(MatMul(F2, U2), MatMul(F, U), |F|, Width(U));
  }

  lemma DivUndoEntry(F: Mat, U: Mat, n: nat, k: nat, d: real, a: nat, b: nat)
    requires Chain(F, U, n) && k < n && d != 0.0 && a < |F| && b < Width(U)
    requires IsMat(DivRowFrom(U, k, 0, d), n, Width(U))
    ensures Dot(ScaleCol(F, k, d), DivRowFrom(U, k, 0, d), a, b) == Dot(F, U, a, b)
  {
    var t := Terms(F, U, a, b);
    var t2 := Terms(ScaleCol(F, k, d), DivRowFrom(U, k, 0, d), a, b);
    forall s | 0 <= s < n ensures t2[s] == t[s] {
      if s == k {
        ScaleCancel(F[a][k], U[k][b], d);
      }
    }
    assert t2 == t;
  }

  lemma ScaleCancel(x: real, y: real, d: real)
    requires d != 0.0
    ensures (x * d) * (y / d) == x * y
  {
    assert (x * d) * (y / d) == x * y * (d / d);
  }

  /** Adding `f` times column `i` to column `k` of `F` undoes subtracting `f` times row `k` from row `i` of `U`. */
  lemma SubUndo(F: Mat, U: Mat, n: nat, i: nat, k: nat, f: real)
    requires Chain(F, U, n) && i < n && k < n && i != k
    ensures Chain(AddCol(F, k, i, f), SubRowFrom(U, i, k, 0, f), n)
    ensures MatMul(AddCol(F, k, i, f), SubRowFrom(U, i, k, 0, f)) == MatMul(F, U)
  {
    var F2, U2 := AddCol(F, k, i, f), SubRowFrom(U, i, k, 0, f);
    assert IsMat(U2, n, Width(U));
    forall a, b | 0 <= a < |F| && 0 <= b < Width(U)
      ensures MatMul(F2, U2)[a][b] == MatMul(F, U)[a][b]
    {
      SubUndoEntry(F, U, n, i, k, f, a, b);
    }
    MatExt(MatMul(F2, U2), MatMul(F, U), |F|, Width(U));
  }

  lemma SubUndoEntry(F: Mat, U: Mat, n: nat, i: nat, k: nat, f: real, a: nat, b: nat)
    requires Chain(F, U, n) && i < n && k < n && i != k && a < |F| && b < Width(U)
    requires IsMat(SubRowFrom(U, i, k, 0, f), n, Width(U))
    ensures Dot(AddCol(F, k, i, f), SubRowFrom(U, i, k, 0, f), a, b) == Dot(F, U, a, b)
  {
    var t := Terms(F, U, a, b);
    var vk, vi := SubUndoTerms(F, U, n, i, k, f, a, b);
    SumTwoUpdates(t, k, i, vk, vi);
  }

  /**
   * Only terms `k` and `i` of the dot product change, to `vk` and `vi`, and
   * their sum is kept.
   */
  lemma SubUndoTerms(F: Mat, U: Mat, n: nat, i: nat, k: nat, f: real, a: nat, b: nat)
    returns (vk: real, vi: real)
    requires Chain(F, U, n) && i < n && k < n && i != k && a < |F| && b < Width(U)
    requires IsMat(SubRowFrom(U, i, k, 0, f), n, Width(U))
    ensures Terms(AddCol(F, k, i, f), SubRowFrom(U, i, k, 0, f), a, b) == Terms(F, U, a, b)[k := vk][i := vi]
    ensures vk + vi == Terms(F, U, a, b)[k] + Terms(F, U, a, b)[i]
  {
    var t := Terms(F, U, a, b);
    var t2 := Terms(AddCol(F, k, i, f), SubRowFrom(U, i, k, 0, f), a, b);
    vk := (F[a][k] + f * F[a][i]) * U[k][b];
    vi := F[a][i] * (U[i][b] - f * U[k][b]);
    var e := t[k := vk][i := vi];
    forall s | 0 <= s < n ensures t2[s] == e[s] {
      SubUndoTerm(F, U, n, i, k, f, a, b, s);
    }
    assert t2 == e;
    SubUndoArith(F[a][k], F[a][i], U[k][b], U[i][b], f);
  }

  /** Term `s` of the dot product after the row and column operations. */
  lemma SubUndoTerm(F: Mat, U: Mat, n: nat, i: nat, k: nat, f: real, a: nat, b: nat, s: nat)
    requires Chain(F, U, n) && i < n && k < n && i != k && a < |F| && b < Width(U) && s < n
    requires IsMat(SubRowFrom(U, i, k, 0, f), n, Width(U))
    ensures Terms(AddCol(F, k, i, f), SubRowFrom(U, i, k, 0, f), a, b)[s] ==
      if s == k then (F[a][k] + f * F[a][i]) * U[k][b]
      else if s == i then F[a][i] * (U[i][b] - f * U[k][b])
      else Terms(F, U, a, b)[s]
  {
    assert AddCol(F, k, i, f)[a][s] == if s == k then F[a][k] + f * F[a][i] else F[a][s];
  }

  lemma SumTwoUpdates(t: seq<real>, k: nat, i: nat, vk: real, vi: real)
    requires k < |t| && i < |t| && k != i
    ensures Sum(t[k := vk][i := vi]) == Sum(t) - t[k] - t[i] + vk + vi
  {
    SumUpdate(t, k, vk);
    SumUpdate(t[k := vk], i, vi);
  }

  lemma SubUndoArith(fk: real, fi: real, uk: real, ui: real, f: real)
    ensures (fk + f * fi) * uk + fi * (ui - f * uk) == fk * uk + fi * ui
  {
  }
}
