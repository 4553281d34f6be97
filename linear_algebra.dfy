/**
 * Mathematical meaning of the library's matrices: a matrix is a sequence of
 * rows, every entry an exact real. The operations of matrix.c are specified
 * against the functions of this module.
 */
module LinearAlgebra {
  import opened Sums

  type Mat = seq<seq<real>>

  /** `M` has `rows` rows of `cols` entries each. */
  predicate IsMat(M: Mat, rows: nat, cols: nat)
  {
    |M| == rows && forall i :: 0 <= i < rows ==> |M[i]| == cols
  }

  /** Number of columns (0 for a matrix without rows). */
  function Width(M: Mat): nat
  {
    if |M| == 0 then 0 else |M[0]|
  }

  function Zeros(rows: nat, cols: nat): (Z: Mat)
    ensures IsMat(Z, rows, cols)
  {
    seq(rows, i requires 0 <= i < rows => seq(cols, j requires 0 <= j < cols => 0.0))
  }

  function Identity(n: nat): (I: Mat)
    ensures IsMat(I, n, n)
  {
    seq(n, i requires 0 <= i < n => seq(n, j requires 0 <= j < n => if i == j then 1.0 else 0.0))
  }

  /** Entrywise sum of two matrices of the same shape. */
  function MatAdd(A: Mat, B: Mat): (C: Mat)
    requires IsMat(B, |A|, Width(A)) && IsMat(A, |A|, Width(A))
    ensures IsMat(C, |A|, Width(A))
  {
    seq(|A|, i requires 0 <= i < |A| =>
      seq(Width(A), j requires 0 <= j < Width(A) => A[i][j] + B[i][j]))
  }

  /** Every entry of a row multiplied by `c`. */
  function ScaleRow(row: seq<real>, c: real): (r: seq<real>)
    ensures |r| == |row|
  {
    seq(|row|, j requires 0 <= j < |row| => row[j] * c)
  }

  /** Every entry multiplied by `c`. */
  function MatScale(A: Mat, c: real): (C: Mat)
    requires IsMat(A, |A|, Width(A))
    ensures IsMat(C, |A|, Width(A))
  {
    seq(|A|, i requires 0 <= i < |A| => ScaleRow(A[i], c))
  }

  /** The products `A[i][t] * B[t][j]` for `t` along row `i` of `A`. */
  function Terms(A: Mat, B: Mat, i: nat, j: nat): (s: seq<real>)
    requires i < |A| && |A[i]| == |B|
    requires forall t :: 0 <= t < |B| ==> j < |B[t]|
    ensures |s| == |B|
  {
    seq(|B|, t requires 0 <= t < |B| => A[i][t] * B[t][j])
  }

  /** Entry (i, j) of the product `A * B`. */
  function Dot(A: Mat, B: Mat, i: nat, j: nat): real
    requires i < |A| && |A[i]| == |B|
    requires forall t :: 0 <= t < |B| ==> j < |B[t]|
  {
    Sum(Terms(A, B, i, j))
  }

  /** `A * B`, with `A` of width `|B|`. */
  function MatMul(A: Mat, B: Mat): (C: Mat)
    requires IsMat(A, |A|, |B|) && IsMat(B, |B|, Width(B))
    ensures IsMat(C, |A|, Width(B))
  {
    seq(|A|, i requires 0 <= i < |A| =>
      seq(Width(B), j requires 0 <= j < Width(B) => Dot(A, B, i, j)))
  }

  /** Magnitudes of the entries of a row. */
  function AbsRow(row: seq<real>): (a: seq<real>)
    ensures |a| == |row|
  {
    seq(|row|, j requires 0 <= j < |row| => Abs(row[j]))
  }

  /** Sum of the magnitudes of a row. */
  function RowAbsSum(row: seq<real>): real
  {
    Sum(AbsRow(row))
  }

  /** Running maximum of the first `i` absolute row sums, starting from 0. */
  function NormUpTo(M: Mat, i: nat): real
    requires i <= |M|
  {
    if i == 0 then 0.0 else Max(NormUpTo(M, i - 1), RowAbsSum(M[i - 1]))
  }

  /** The infinity norm: the largest absolute row sum. */
  function InfNorm(M: Mat): real
  {
    NormUpTo(M, |M|)
  }

  /** Matrices of the same shape with the same entries are equal. */
  lemma MatExt(A: Mat, B: Mat, rows: nat, cols: nat)
    requires IsMat(A, rows, cols) && IsMat(B, rows, cols)
    requires forall i, j :: 0 <= i < rows && 0 <= j < cols ==> A[i][j] == B[i][j]
    ensures A == B
  {
    forall i | 0 <= i < rows ensures A[i] == B[i] {
      assert forall j :: 0 <= j < cols ==> A[i][j] == B[i][j];
    }
  }

  // ---------------------------------------------------------------------------
  // Sums and norms

  lemma RowAbsSumNonneg(row: seq<real>)
    ensures RowAbsSum(row) >= 0.0
  {
    SumNonneg(AbsRow(row));
  }

  lemma {:induction false} NormUpToIsMax(M: Mat, n: nat)
    requires n <= |M|
    ensures NormUpTo(M, n) >= 0.0
    ensures forall i :: 0 <= i < n ==> RowAbsSum(M[i]) <= NormUpTo(M, n)
    ensures n > 0 ==> exists i :: 0 <= i < n && NormUpTo(M, n) == RowAbsSum(M[i])
  {
    if n > 0 {
      NormUpToIsMax(M, n - 1);
      RowAbsSumNonneg(M[n - 1]);
      if n - 1 > 0 {
        var i :| 0 <= i < n - 1 && NormUpTo(M, n - 1) == RowAbsSum(M[i]);
      }
    }
  }

  /**
   * The infinity norm is the maximum of the absolute row sums: it bounds
   * every row sum, it is attained by some row, and it is never negative.
   */
  lemma InfNormIsMax(M: Mat)
    ensures InfNorm(M) >= 0.0
    ensures forall i :: 0 <= i < |M| ==> RowAbsSum(M[i]) <= InfNorm(M)
    ensures |M| > 0 ==> exists i :: 0 <= i < |M| && InfNorm(M) == RowAbsSum(M[i])
  {
    NormUpToIsMax(M, |M|);
  }

  /** A non-negative bound on every absolute row sum bounds the norm. */
  lemma {:induction false} NormUpToBound(M: Mat, n: nat, b: real)
    requires n <= |M| && b >= 0.0
    requires forall i :: 0 <= i < n ==> RowAbsSum(M[i]) <= b
    ensures NormUpTo(M, n) <= b
  {
    if n > 0 {
      NormUpToBound(M, n - 1, b);
    }
  }

  lemma AbsMul(x: real, y: real)
    ensures Abs(x * y) == Abs(x) * Abs(y)
  {
    if x < 0.0 {
      if y < 0.0 { assert x * y == (-x) * (-y); } else { assert -(x * y) == (-x) * y; }
    } else {
      if y < 0.0 { assert -(x * y) == x * (-y); }
    }
  }

  /** `|x * y| == |y| * |x|`, the order in which the grid of `AbsTermGrid` holds it. */
  lemma AbsTerm(x: real, y: real)
    ensures Abs(Product(x, y)) == Product(Abs(y), Abs(x))
  {
    AbsMul(x, y);
  }

  lemma RowAbsSumScale(row: seq<real>, c: real)
    ensures RowAbsSum(ScaleRow(row, c)) == Product(Abs(c), RowAbsSum(row))
  {
    AbsScaleRow(row, c);
    RowAbsSumScaled(row, Abs(c));
    ProductComm(RowAbsSum(row), Abs(c));
  }

  lemma ProductComm(x: real, y: real)
    ensures Product(x, y) == Product(y, x)
  {
  }

  /** `|row * c| == |row| * |c|` entrywise. */
  lemma AbsScaleRow(row: seq<real>, c: real)
    ensures AbsRow(ScaleRow(row, c)) == ScaleRow(AbsRow(row), Abs(c))
  {
    forall j | 0 <= j < |row| ensures AbsRow(ScaleRow(row, c))[j] == ScaleRow(AbsRow(row), Abs(c))[j] {
      AbsMul(row[j], c);
    }
  }

  /** Scaling a matrix by `c` scales its infinity norm by `|c|`. */
  lemma InfNormScale(M: Mat, c: real)
    requires IsMat(M, |M|, Width(M))
    ensures InfNorm(MatScale(M, c)) == Product(Abs(c), InfNorm(M))
  {
    var S, b := MatScale(M, c), Product(Abs(c), InfNorm(M));
    ScaledRowSums(M, c);
    NormUpToBound(S, |S|, b);
    InfNormIsMax(S);
    if |M| > 0 {
      var i :| 0 <= i < |M| && RowAbsSum(S[i]) == b;
    }
  }

  /** The absolute row sums of `M * c` are bounded by `|c| * ||M||`, which one of them attains. */
  lemma ScaledRowSums(M: Mat, c: real)
    requires IsMat(M, |M|, Width(M))
    ensures Product(Abs(c), InfNorm(M)) >= 0.0
    ensures forall i :: 0 <= i < |M| ==> RowAbsSum(MatScale(M, c)[i]) <= Product(Abs(c), InfNorm(M))
    ensures |M| > 0 ==> exists i :: 0 <= i < |M| && RowAbsSum(MatScale(M, c)[i]) == Product(Abs(c), InfNorm(M))
  {
    var S := MatScale(M, c);
    InfNormIsMax(M);
    ProductMono(Abs(c), 0.0, InfNorm(M));
    forall i | 0 <= i < |M| ensures RowAbsSum(S[i]) <= Product(Abs(c), InfNorm(M)) {
      ScaledRowBound(M, c, i);
    }
    if |M| > 0 {
      var i :| 0 <= i < |M| && InfNorm(M) == RowAbsSum(M[i]);
      RowAbsSumScale(M[i], c);
      assert RowAbsSum(S[i]) == Product(Abs(c), InfNorm(M));
    }
  }

  /** Row `i` of `M * c` has absolute sum at most `|c| * ||M||`. */
  lemma ScaledRowBound(M: Mat, c: real, i: nat)
    requires IsMat(M, |M|, Width(M)) && i < |M|
    ensures RowAbsSum(MatScale(M, c)[i]) <= Product(Abs(c), InfNorm(M))
  {
    InfNormIsMax(M);
    RowAbsSumScale(M[i], c);
    ProductMono(Abs(c), RowAbsSum(M[i]), InfNorm(M));
  }

  lemma MulMono(k: real, a: real, b: real)
    requires k >= 0.0 && a <= b
    ensures k * a <= k * b
  {
  }

  /**
   * Plain `x * y`. It exists only to guide the verifier: a fact stated about
   * `Product(x, y)` is matched for any equal factors, where a bare product
   * passed through a call would have to be rediscovered by arithmetic.
   */
  function Product(x: real, y: real): real
  {
    x * y
  }

  /** Multiplying by `k >= 0` keeps `<=`. */
  lemma ProductMono(k: real, a: real, b: real)
    requires k >= 0.0 && a <= b
    ensures Product(k, a) <= Product(k, b)
  {
    MulMono(k, a, b);
  }

  /** Multiplying on the right by `k >= 0` keeps `<=`. */
  lemma ProductMonoLeft(a: real, b: real, k: real)
    requires k >= 0.0 && a <= b
    ensures Product(a, k) <= Product(b, k)
  {
    MulMono(k, a, b);
  }

  /** The infinity norm is submultiplicative: `||P*A|| <= ||P|| * ||A||`. */
  lemma InfNormMul(P: Mat, A: Mat)
    requires IsMat(P, |P|, |A|) && IsMat(A, |A|, Width(A))
    ensures InfNorm(MatMul(P, A)) <= Product(InfNorm(P), InfNorm(A))
  {
    var C := MatMul(P, A);
    ProductRowSums(P, A);
    NormUpToBound(C, |C|, Product(InfNorm(P), InfNorm(A)));
  }

  /** Scaling by `d >= 0` scales the infinity norm by `d`. */
  lemma InfNormScaleNonneg(M: Mat, d: real)
    requires IsMat(M, |M|, Width(M)) && d >= 0.0
    ensures InfNorm(MatScale(M, d)) == Product(d, InfNorm(M))
  {
    InfNormScale(M, d);
    assert Abs(d) == d;
  }

  /**
   * Plain `d * (x * y)`, the bound `InfNormStepBound` gives, named for the
   * same reason as `Product`.
   */
  function ScaledProduct(d: real, x: real, y: real): real
  {
    Product(d, Product(x, y))
  }

  /** A matrix `U == (T * A) * d` with `d >= 0` has `||U|| <= d * (||T|| * ||A||)`. */
  lemma InfNormStepBound(T: Mat, A: Mat, U: Mat, d: real)
    requires IsMat(T, |T|, |A|) && IsMat(A, |A|, Width(A)) && d >= 0.0
    requires U == MatScale(MatMul(T, A), d)
    ensures InfNorm(U) <= ScaledProduct(d, InfNorm(T), InfNorm(A))
  {
    var M := MatMul(T, A);
    InfNormMul(T, A);
    InfNormScaleNonneg(M, d);
    ProductMono(d, InfNorm(M), Product(InfNorm(T), InfNorm(A)));
    assert InfNorm(U) == InfNorm(MatScale(M, d));
  }

  /** Every absolute row sum of `P * A` is at most `||P|| * ||A||`. */
  lemma ProductRowSums(P: Mat, A: Mat)
    requires IsMat(P, |P|, |A|) && IsMat(A, |A|, Width(A))
    ensures Product(InfNorm(P), InfNorm(A)) >= 0.0
    ensures forall i :: 0 <= i < |P| ==> RowAbsSum(MatMul(P, A)[i]) <= Product(InfNorm(P), InfNorm(A))
  {
    var C := MatMul(P, A);
    InfNormIsMax(P);
    InfNormIsMax(A);
    ProductMonoLeft(0.0, InfNorm(P), InfNorm(A));
    forall i | 0 <= i < |P| ensures RowAbsSum(C[i]) <= Product(InfNorm(P), InfNorm(A)) {
      RowProductBound(P, A, i);
      ProductMonoLeft(RowAbsSum(P[i]), InfNorm(P), InfNorm(A));
    }
  }

  /** Row `i` of `P * A` has absolute sum at most `|P[i]| * ||A||`. */
  lemma RowProductBound(P: Mat, A: Mat, i: nat)
    requires IsMat(P, |P|, |A|) && IsMat(A, |A|, Width(A)) && i < |P|
    ensures RowAbsSum(MatMul(P, A)[i]) <= Product(RowAbsSum(P[i]), InfNorm(A))
  {
    InfNormIsMax(A);
    var G := AbsTermGrid(P, A, i, InfNorm(A));
    SumSwap(G, Width(A));
  }

  /**
   * The grid `G[t][j] = |P[i][t]| * |A[t][j]|`: its column sums bound the
   * entries of row `i` of `P * A`; if every absolute row sum of `A` is at
   * most `c`, its row sums add up to at most `|P[i]| * c`.
   */
  lemma AbsTermGrid(P: Mat, A: Mat, i: nat, c: real) returns (G: Mat)
    requires IsMat(P, |P|, |A|) && IsMat(A, |A|, Width(A)) && i < |P|
    requires forall t :: 0 <= t < |A| ==> RowAbsSum(A[t]) <= c
    ensures IsMat(G, |A|, Width(A))
    ensures RowAbsSum(MatMul(P, A)[i]) <= Sum(ColumnSums(G, Width(A)))
    ensures Sum(RowSums(G)) <= Product(RowAbsSum(P[i]), c)
  {
    G := seq(|A|, t requires 0 <= t < |A| => ScaleRow(AbsRow(A[t]), Abs(P[i][t])));
    ProductRowByColumns(P, A, i, G);
    ProductRowByRows(P, A, i, G, c);
  }

  /** Row `t` of `G` sums to at most `|P[i][t]| * c`. */
  lemma ProductRowByRows(P: Mat, A: Mat, i: nat, G: Mat, c: real)
    requires IsMat(P, |P|, |A|) && IsMat(A, |A|, Width(A)) && i < |P|
    requires forall t :: 0 <= t < |A| ==> RowAbsSum(A[t]) <= c
    requires G == seq(|A|, t requires 0 <= t < |A| => ScaleRow(AbsRow(A[t]), Abs(P[i][t])))
    ensures Sum(RowSums(G)) <= Product(RowAbsSum(P[i]), c)
  {
    var bound := ScaleRow(AbsRow(P[i]), c);
    GridRowBounds(P, A, i, G, c);
    SumMono(RowSums(G), bound);
    RowAbsSumScaled(P[i], c);
  }

  lemma GridRowBounds(P: Mat, A: Mat, i: nat, G: Mat, c: real)
    requires IsMat(P, |P|, |A|) && IsMat(A, |A|, Width(A)) && i < |P|
    requires forall t :: 0 <= t < |A| ==> RowAbsSum(A[t]) <= c
    requires G == seq(|A|, t requires 0 <= t < |A| => ScaleRow(AbsRow(A[t]), Abs(P[i][t])))
    ensures |RowSums(G)| == |A|
    ensures forall t :: 0 <= t < |A| ==> RowSums(G)[t] <= ScaleRow(AbsRow(P[i]), c)[t]
  {
    forall t | 0 <= t < |A| ensures RowSums(G)[t] <= ScaleRow(AbsRow(P[i]), c)[t] {
      GridRowBound(P, A, i, G, c, t);
    }
  }

  lemma GridRowBound(P: Mat, A: Mat, i: nat, G: Mat, c: real, t: nat)
    requires IsMat(P, |P|, |A|) && IsMat(A, |A|, Width(A)) && i < |P| && t < |A|
    requires RowAbsSum(A[t]) <= c
    requires G == seq(|A|, t requires 0 <= t < |A| => ScaleRow(AbsRow(A[t]), Abs(P[i][t])))
    ensures |RowSums(G)| == |A|
    ensures RowSums(G)[t] <= ScaleRow(AbsRow(P[i]), c)[t]
  {
    assert RowSums(G)[t] == Sum(G[t]);
    assert G[t] == ScaleRow(AbsRow(A[t]), Abs(P[i][t]));
    assert ScaleRow(AbsRow(P[i]), c)[t] == Product(Abs(P[i][t]), c);
    ScaledSumBound(AbsRow(A[t]), Abs(P[i][t]), c);
  }

  /** Entrywise triangle inequality along row `i` of `P * A`. */
  lemma ProductRowByColumns(P: Mat, A: Mat, i: nat, G: Mat)
    requires IsMat(P, |P|, |A|) && IsMat(A, |A|, Width(A)) && i < |P|
    requires G == seq(|A|, t requires 0 <= t < |A| => ScaleRow(AbsRow(A[t]), Abs(P[i][t])))
    ensures RowAbsSum(MatMul(P, A)[i]) <= Sum(ColumnSums(G, Width(A)))
  {
    var m, C := Width(A), MatMul(P, A);
    forall j | 0 <= j < m
      ensures AbsRow(C[i])[j] <= ColumnSums(G, m)[j]
    {
      EntryBound(P, A, i, j, G);
    }
    SumMono(AbsRow(C[i]), ColumnSums(G, m));
  }

  /** `Sum(s * c) == Sum(s) * c`. */
  lemma SumScaleRow(s: seq<real>, c: real)
    ensures Sum(ScaleRow(s, c)) == Sum(s) * c
  {
    SumScale(s, c, ScaleRow(s, c));
  }

  /** `|row| * c` as the sum of the scaled magnitudes. */
  lemma RowAbsSumScaled(row: seq<real>, c: real)
    ensures Sum(ScaleRow(AbsRow(row), c)) == Product(RowAbsSum(row), c)
  {
    SumScaleRow(AbsRow(row), c);
  }

  /** A row of sum at most `c`, scaled by `k >= 0`, sums to at most `k * c`. */
  lemma ScaledSumBound(s: seq<real>, k: real, c: real)
    requires k >= 0.0 && Sum(s) <= c
    ensures Sum(ScaleRow(s, k)) <= Product(k, c)
  {
    var u := ScaleRow(s, k);
    assert Sum(u) == k * Sum(s) by {
      SumScale(s, k, u);
    }
    MulMono(k, Sum(s), c);
  }

  lemma EntryBound(P: Mat, A: Mat, i: nat, j: nat, G: Mat)
    requires IsMat(P, |P|, |A|) && IsMat(A, |A|, Width(A)) && i < |P| && j < Width(A)
    requires G == seq(|A|, t requires 0 <= t < |A| => ScaleRow(AbsRow(A[t]), Abs(P[i][t])))
    ensures Abs(Dot(P, A, i, j)) <= Sum(Column(G, j))
  {
    var terms := Terms(P, A, i, j);
    SumAbs(terms, AbsRow(terms));
    forall t | 0 <= t < |A| ensures AbsRow(terms)[t] == Column(G, j)[t] {
      AbsTerm(P[i][t], A[t][j]);
    }
    SumExt(AbsRow(terms), Column(G, j));
  }

  // ---------------------------------------------------------------------------
  // Products

  /** `I * A == A`. */
  lemma MatMulIdentityLeft(A: Mat)
    requires IsMat(A, |A|, Width(A))
    ensures MatMul(Identity(|A|), A) == A
  {
    var n := |A|;
    var C := MatMul(Identity(n), A);
    forall i, j | 0 <= i < n && 0 <= j < Width(A) ensures C[i][j] == A[i][j] {
      SumSingle(Terms(Identity(n), A, i, j), i);
    }
    MatExt(C, A, n, Width(A));
  }

  /** `A * I == A`. */
  lemma MatMulIdentityRight(A: Mat)
    requires IsMat(A, |A|, Width(A))
    ensures MatMul(A, Identity(Width(A))) == A
  {
    var m := Width(A);
    var C := MatMul(A, Identity(m));
    forall i, j | 0 <= i < |A| && 0 <= j < m ensures C[i][j] == A[i][j] {
      SumSingle(Terms(A, Identity(m), i, j), j);
    }
    MatExt(C, A, |A|, m);
  }

  /** A scalar factor can be pulled out of the left operand of a product. */
  lemma MatMulScaleLeft(P: Mat, c: real, A: Mat)
    requires IsMat(P, |P|, |A|) && IsMat(A, |A|, Width(A))
    ensures MatMul(MatScale(P, c), A) == MatScale(MatMul(P, A), c)
  {
    var L, R := MatMul(MatScale(P, c), A), MatScale(MatMul(P, A), c);
    forall i, j | 0 <= i < |P| && 0 <= j < Width(A) ensures L[i][j] == R[i][j] {
      SumScale(Terms(P, A, i, j), c, Terms(MatScale(P, c), A, i, j));
    }
    MatExt(L, R, |P|, Width(A));
  }

  lemma MatScaleScale(M: Mat, a: real, b: real)
    requires IsMat(M, |M|, Width(M))
    ensures MatScale(MatScale(M, a), b) == MatScale(M, a * b)
  {
    var L, R := MatScale(MatScale(M, a), b), MatScale(M, a * b);
    forall i, j | 0 <= i < |M| && 0 <= j < Width(M) ensures L[i][j] == R[i][j] {
      assert M[i][j] * a * b == M[i][j] * (a * b);
    }
    MatExt(L, R, |M|, Width(M));
  }

  lemma MatScaleOne(M: Mat)
    requires IsMat(M, |M|, Width(M))
    ensures MatScale(M, 1.0) == M
  {
    MatExt(MatScale(M, 1.0), M, |M|, Width(M));
  }

  lemma MatAddZerosLeft(M: Mat)
    requires IsMat(M, |M|, Width(M))
    ensures MatAdd(Zeros(|M|, Width(M)), M) == M
  {
    MatExt(MatAdd(Zeros(|M|, Width(M)), M), M, |M|, Width(M));
  }
}
