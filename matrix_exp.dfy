/**
 * The specification of matrix_exp.c: the Taylor series
 * `exp(A) = sum over j of A^j / j!`, the proof that its terms fall below any
 * `eps > 0`, and the state the loop of matrix_exp keeps.
 */
module ExpSpec {
  import opened LinearAlgebra
  import opened Matrices

  // ---------------------------------------------------------------------------
  // The series

  function Fact(k: nat): (r: nat)
    ensures r >= 1
  {
    if k == 0 then 1 else k * Fact(k - 1)
  }

  /** `A^k` for a square `A`, as `A^(k-1) * A`. */
  function Power(A: Mat, k: nat): (P: Mat)
    requires IsMat(A, |A|, |A|)
    ensures IsMat(P, |A|, |A|)
  {
    if k == 0 then Identity(|A|) else MatMul(Power(A, k - 1), A)
  }

  /**
   * The Taylor term `A^k / k!`, built the way matrix_exp builds it: the
   * identity for `k == 0`, then the previous term times `A`, divided by `k`.
   * `TaylorTermClosedForm` proves it equal to `A^k / k!`.
   */
  function TaylorTerm(A: Mat, k: nat): (T: Mat)
    requires IsMat(A, |A|, |A|)
    ensures IsMat(T, |A|, |A|)
  {
    if k == 0 then Identity(|A|) else MatScale(MatMul(TaylorTerm(A, k - 1), A), 1.0 / (k as real))
  }

  /** The partial sum of the first `k` terms, `A^0/0! + ... + A^(k-1)/(k-1)!`. */
  function TaylorSum(A: Mat, k: nat): (S: Mat)
    requires IsMat(A, |A|, |A|)
    ensures IsMat(S, |A|, |A|)
  {
    if k == 0 then Zeros(|A|, |A|) else MatAdd(TaylorSum(A, k - 1), TaylorTerm(A, k - 1))
  }

  /** `1/x * 1/y == 1/(x*y)` for positive `x` and `y`. */
  lemma RecipProduct(x: real, y: real)
    requires x > 0.0 && y > 0.0
    ensures (1.0 / x) * (1.0 / y) == 1.0 / (x * y)
  {
  }

  /** `1/(k-1)! * 1/k == 1/k!`. */
  lemma FactRecip(k: nat)
    requires k >= 1
    ensures Product(1.0 / (Fact(k - 1) as real), 1.0 / (k as real)) == 1.0 / (Fact(k) as real)
  {
    var f, r := Fact(k - 1) as real, k as real;
    assert Fact(k) as real == f * r;
    RecipProduct(f, r);
  }

  /** Scaling by `c` and then by `d` is scaling by any `e` equal to `c * d`. */
  lemma ScaleCompose(M: Mat, c: real, d: real, e: real)
    requires IsMat(M, |M|, Width(M)) && Product(c, d) == e
    ensures MatScale(MatScale(M, c), d) == MatScale(M, e)
  {
    MatScaleScale(M, c, d);
  }

  /** The term the loop computes is `A^k / k!`. */
  lemma {:induction false} TaylorTermClosedForm(A: Mat, k: nat)
    requires IsMat(A, |A|, |A|)
    ensures TaylorTerm(A, k) == MatScale(Power(A, k), 1.0 / (Fact(k) as real))
  {
    if k == 0 {
      assert Fact(0) as real == 1.0;
      MatScaleOne(Identity(|A|));
    } else {
      var P, c, d := Power(A, k - 1), 1.0 / (Fact(k - 1) as real), 1.0 / (k as real);
      TaylorTermClosedForm(A, k - 1);
      assert TaylorTerm(A, k) == MatScale(MatMul(MatScale(P, c), A), d);
      MatMulScaleLeft(P, c, A);
      assert Power(A, k) == MatMul(P, A);
      FactRecip(k);
      ScaleCompose(MatMul(P, A), c, d, 1.0 / (Fact(k) as real));
    }
  }

  /** `1/k == 1` for `k == 1`. */
  lemma RecipOne(k: nat)
    requires k == 1
    ensures 1.0 / (k as real) == 1.0
  {
  }

  /** The loop's starting point: the term `A^1/1!` is `A` and the sum of two terms is `I + A`. */
  lemma TaylorStart(A: Mat)
    requires IsMat(A, |A|, |A|)
    ensures TaylorTerm(A, 1) == A
    ensures TaylorSum(A, 2) == MatAdd(Identity(|A|), A)
  {
    var I := Identity(|A|);
    assert TaylorTerm(A, 1) == A by {
      assert TaylorTerm(A, 0) == I;
      RecipOne(1);
      MatMulIdentityLeft(A);
      MatScaleOne(A);
    }
    assert TaylorSum(A, 1) == I by {
      assert TaylorSum(A, 1) == MatAdd(Zeros(|A|, |A|), TaylorTerm(A, 0));
      MatAddZerosLeft(I);
    }
  }

  /** `1/k` is positive. */
  lemma RecipPositive(k: nat)
    requires k >= 1
    ensures 1.0 / (k as real) > 0.0
  {
  }

  /** The terms shrink at least like `||A|| / k`: `||T_k|| <= (1/k) * (||T_(k-1)|| * ||A||)`. */
  lemma TaylorTermNormStep(A: Mat, k: nat)
    requires IsMat(A, |A|, |A|) && k >= 1
    ensures InfNorm(TaylorTerm(A, k)) <= ScaledProduct(1.0 / (k as real), InfNorm(TaylorTerm(A, k - 1)), InfNorm(A))
  {
    RecipPositive(k);
    InfNormStepBound(TaylorTerm(A, k - 1), A, TaylorTerm(A, k), 1.0 / (k as real));
  }

  /** Once `k >= 2 * ||A||`, a term is at most half the previous one. */
  lemma Halving(t: real, t2: real, a: real, k: nat)
    requires t >= 0.0 && a >= 0.0 && k > 0 && 2.0 * a <= k as real
    requires t2 <= ScaledProduct(1.0 / (k as real), t, a)
    ensures t2 <= t / 2.0
  {
    var r := k as real;
    assert a / r <= 0.5;
    assert (1.0 / r) * (t * a) == t * (a / r);
    MulMono(t, a / r, 0.5);
  }

  /** How many whole `eps` fit in `t`: the second part of the loop's termination measure. */
  function EpsCount(t: real, eps: real): int
    requires eps > 0.0
  {
    (t / eps).Floor
  }

  /**
   * When the norm at least halves and stays at least `eps`, the number of
   * whole `eps` it holds strictly drops.
   */
  lemma MeasureDrops(t: real, t2: real, eps: real)
    requires eps > 0.0 && t2 >= eps && t2 <= t / 2.0
    ensures 0 <= EpsCount(t2, eps) < EpsCount(t, eps)
  {
    var x, y := t / eps, t2 / eps;
    assert y >= 1.0;
    assert y <= x / 2.0;
  }

  /**
   * The arithmetic of the termination argument: a norm `t2` of at most
   * `(1/k) * (t * a)`, with `k >= 2 * floor(a) + 2`, that is still at least
   * `eps`, holds strictly fewer whole `eps` than `t`.
   */
  lemma CountDrops(t: real, t2: real, a: real, k: nat, eps: real)
    requires t >= 0.0
    requires a >= 0.0
    requires eps > 0.0
    requires k >= 2 * a.Floor + 2
    requires t2 <= ScaledProduct(1.0 / (k as real), t, a)
    requires t2 >= eps
    ensures 0 <= EpsCount(t2, eps) < EpsCount(t, eps)
  {
    assert 2.0 * a <= k as real;
    Halving(t, t2, a, k);
    MeasureDrops(t, t2, eps);
  }

  /**
   * The loop's termination argument: once `k >= 2 * floor(||A||) + 2`, a
   * term that is still at least `eps` holds strictly fewer whole `eps` than
   * the one before it.
   */
  lemma TermCountDrops(A: Mat, k: nat, eps: real)
    requires IsMat(A, |A|, |A|) && k >= 2 && eps > 0.0
    requires k >= 2 * InfNorm(A).Floor + 2
    requires InfNorm(TaylorTerm(A, k)) >= eps
    ensures 0 <= EpsCount(InfNorm(TaylorTerm(A, k)), eps) < EpsCount(InfNorm(TaylorTerm(A, k - 1)), eps)
  {
    InfNormIsMax(A);
    InfNormIsMax(TaylorTerm(A, k - 1));
    TaylorTermNormStep(A, k);
    CountDrops(InfNorm(TaylorTerm(A, k - 1)), InfNorm(TaylorTerm(A, k)), InfNorm(A), k, eps);
  }

  /** From any `j >= 2 * floor(||A||) + 2` on, some term has norm below `eps`. */
  lemma SmallTermFrom(A: Mat, eps: real, j: nat) returns (K: nat)
    requires IsMat(A, |A|, |A|) && eps > 0.0 && j >= 2 && j >= 2 * InfNorm(A).Floor + 2
    ensures K >= j && InfNorm(TaylorTerm(A, K)) < eps
    decreases EpsCount(InfNorm(TaylorTerm(A, j - 1)), eps)
  {
    if InfNorm(TaylorTerm(A, j)) < eps {
      K := j;
    } else {
      TermCountDrops(A, j, eps);
      K := SmallTermFrom(A, eps, j + 1);
    }
  }

  /**
   * The terms of the series fall below any `eps > 0`: some term from
   * `A^2/2!` on has infinity norm below `eps`, so the loop of matrix_exp
   * stops.
   */
  lemma SmallTermExists(A: Mat, eps: real) returns (K: nat)
    requires IsMat(A, |A|, |A|) && eps > 0.0
    ensures K >= 2 && InfNorm(TaylorTerm(A, K)) < eps
  {
    InfNormIsMax(A);
    K := SmallTermFrom(A, eps, 2 * InfNorm(A).Floor + 2);
  }

  // ---------------------------------------------------------------------------
  // The loop of matrix_exp
  //
  // The two predicates below describe the loop of `MatrixExp` and belong with
  // it; they live in this module because the verifier then treats each of
  // them as a unit where `MatrixExp` uses it, instead of splitting it into
  // its conjuncts at every call and loop invariant, which keeps the proofs
  // of the loop cheap.

  /**
   * The storage shared by the loop of matrix_exp: three separate
   * `n`-by-`n` matrices `result`, `term` and `A`.
   */
  predicate Separate(result: Matrix, term: Matrix, A: Matrix)
  {
    result.Valid() && term.Valid() && A.Valid()
    && result.data != term.data && term.data != A.data && result.data != A.data
    && A.w == A.h && term.w == A.w && term.h == A.h && result.w == A.w && result.h == A.h
  }

  /**
   * The state at the top of pass `k` of the loop of matrix_exp: `A` still
   * holds `A0`, `term` holds the term `A0^(k-1)/(k-1)!`, `result` the sum
   * of the terms before `A0^k/k!`, and every term from `A0^2/2!` to
   * `A0^(k-1)/(k-1)!` has norm at least `eps`.
   */
  ghost predicate LoopState(result: Matrix, term: Matrix, A: Matrix, A0: Mat, k: nat, eps: real)
    reads result.data, term.data, A.data
    requires Separate(result, term, A)
  {
    A.Value() == A0 && k >= 2
    && term.Value() == TaylorTerm(A0, k - 1) && result.Value() == TaylorSum(A0, k)
    && forall j :: 2 <= j < k ==> InfNorm(TaylorTerm(A0, j)) >= eps
  }
}

/**
 * matrix_exp.c: the matrix exponential, summed term by term until the next
 * term's infinity norm drops below `eps`. `Exp` is proved to compute a
 * partial sum of the series of `ExpSpec`, to stop exactly at the first small
 * term, and to stop at all.
 */
module MatrixExp {
  import opened LinearAlgebra
  import opened Matrices
  import opened ExpSpec

  /**
   * The first half of the loop body of matrix_exp: `temp := term * A`,
   * `term := temp`, `term := term / k`. Afterwards `term` holds
   * `old(term) * A / k`.
   */
  method NextTerm(term: Matrix, A: Matrix, k: nat)
    requires term.Valid() && A.Valid() && term.data != A.data
    requires term.w == term.h == A.w == A.h && k >= 1
    modifies term.data
    ensures term.Value() == MatScale(MatMul(old(term.Value()), old(A.Value())), 1.0 / (k as real))
  {
    var n := Rows(A);
    var temp := Alloc(n, n);
    var status := Multiply(temp, term, A);
    var same := Assign(term, temp);
    SDiv(term, k as real);
  }

  /**
   * One pass of the loop body of matrix_exp: the next term, its norm, and,
   * unless the norm is below `eps`, its addition to `result`. `stop` is the
   * `break`, taken exactly when the new term's norm is below `eps`.
   */
  method ExpStep(result: Matrix, term: Matrix, A: Matrix, k: nat, eps: real, ghost A0: Mat)
      returns (stop: bool)
    requires Separate(result, term, A) && LoopState(result, term, A, A0, k, eps)
    modifies term.data, result.data
    ensures stop <==> InfNorm(TaylorTerm(A0, k)) < eps
    ensures stop ==> result.Value() == TaylorSum(A0, k)
    ensures !stop ==> LoopState(result, term, A, A0, k + 1, eps)
  {
    NextTerm(term, A, k);
    var norm := Norm(term);
    if norm < eps {
      return true;
    }
    var status := Add(result, term);
    return false;
  }

  /**
   * The loop of matrix_exp, from `k == 2` with `result == I + A` and
   * `term == A`: it stops at the first `kEnd` whose term has norm below
   * `eps`, leaving the sum of the terms before it in `result`. It always
   * stops, because some term falls below `eps` (`SmallTermExists`).
   */
  method ExpLoop(result: Matrix, term: Matrix, A: Matrix, eps: real, ghost A0: Mat, ghost K: nat) returns (ghost kEnd: nat)
    requires Separate(result, term, A) && LoopState(result, term, A, A0, 2, eps)
    requires K >= 2 && InfNorm(TaylorTerm(A0, K)) < eps
    modifies term.data, result.data
    ensures kEnd >= 2 && result.Value() == TaylorSum(A0, kEnd)
    ensures InfNorm(TaylorTerm(A0, kEnd)) < eps
    ensures forall j :: 2 <= j < kEnd ==> InfNorm(TaylorTerm(A0, j)) >= eps
  {
    var k: nat := 2;
    while true
      invariant LoopState(result, term, A, A0, k, eps) && k <= K
      decreases K - k
    {
      var stop := ExpStep(result, term, A, k, eps, A0);
      if stop {
        kEnd := k;
        return;
      }
      k := k + 1;
    }
  }

  /** The checks of matrix_exp: `A` present and square. */
  predicate ExpInputsOk(A: Matrix?)
  {
    A != null && A.h == A.w
  }

  /**
   * matrix_exp(A, eps): NULL for a NULL or non-square `A`. Otherwise a fresh
   * matrix holding the partial sum `A^0/0! + ... + A^(kEnd-1)/(kEnd-1)!`
   * with `kEnd >= 2`: the term `A^kEnd/kEnd!`, computed last, has infinity
   * norm below `eps` and is not added; every term from `A^2/2!` to
   * `A^(kEnd-1)/(kEnd-1)!` has norm at least `eps`. `A` is not modified.
   */
  method Exp(A: Matrix?, eps: real) returns (result: Matrix?, ghost kEnd: nat)
    requires ValidOrNull(A) && (ExpInputsOk(A) ==> eps > 0.0)
    ensures !ExpInputsOk(A) ==> result == null
    ensures ExpInputsOk(A) ==> result != null && fresh(result) && fresh(result.data) && result.Valid()
    ensures result != null ==> result.h == A.h && result.w == A.h
    ensures result != null ==> kEnd >= 2 && result.Value() == TaylorSum(A.Value(), kEnd)
    ensures result != null ==> InfNorm(TaylorTerm(A.Value(), kEnd)) < eps
    ensures result != null ==> forall j :: 2 <= j < kEnd ==> InfNorm(TaylorTerm(A.Value(), j)) >= eps
  {
    kEnd := 2;
    if A == null {
      return null, kEnd;
    }
    var n := Rows(A);
    if n != Cols(A) {
      return null, kEnd;
    }
    ghost var A0 := A.Value();
    result := AllocId(n);
    var term := Copy(A);
    var status := Add(result, term);
    TaylorStart(A0);
    assert Separate(result, term, A) && LoopState(result, term, A, A0, 2, eps);
    ghost var K := SmallTermExists(A0, eps);
    kEnd := ExpLoop(result, term, A, eps, A0, K);
  }
}
