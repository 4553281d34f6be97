/**
 * The matrix record of matrix.c: a heap object holding a row-major buffer of
 * `w * h` doubles (exact reals here), `w` columns and `h` rows. A C pointer
 * that may be NULL is a `Matrix?`; a successful allocation never fails.
 */
module Matrices {
  import opened Sums
  import opened LinearAlgebra

  // ---------------------------------------------------------------------------
  // The row-major offset rule of matrix_ptr / matrix_cptr

  /** Buffer offset of element (i, j) in a matrix of width `w`. */
  function Offset(w: nat, i: nat, j: nat): nat
  {
    w * i + j
  }

  /** Every in-range (i, j) addresses a slot of the `w * h` buffer. */
  lemma OffsetInRange(w: nat, h: nat, i: nat, j: nat)
    requires i < h && j < w
    ensures Offset(w, i, j) < w * h
  {
    assert w * (i + 1) <= w * h by {
      MulLeftMono(w, i + 1, h);
    }
  }

  lemma MulLeftMono(w: nat, a: nat, b: nat)
    requires a <= b
    ensures w * a <= w * b
  {
  }

  /** Distinct in-range (i, j) pairs address distinct slots. */
  lemma OffsetInjective(w: nat, i1: nat, j1: nat, i2: nat, j2: nat)
    requires j1 < w && j2 < w
    requires Offset(w, i1, j1) == Offset(w, i2, j2)
    ensures i1 == i2 && j1 == j2
  {
    if i1 < i2 {
      MulLeftMono(w, i1 + 1, i2);
    } else if i2 < i1 {
      MulLeftMono(w, i2 + 1, i1);
    }
  }

  /** Every slot of the buffer is the offset of exactly one (row, column) pair. */
  lemma OffsetOnto(w: nat, h: nat, k: nat) returns (i: nat, j: nat)
    requires w > 0 && k < w * h
    ensures i < h && j < w && Offset(w, i, j) == k
  {
    i, j := k / w, k % w;
    if i >= h {
      MulLeftMono(w, h, i);
      assert false;
    }
  }

  /** Element (i, j) of a row-major buffer; `OffsetInRange` makes the read safe. */
  function Entry(s: seq<real>, w: nat, h: nat, i: nat, j: nat): real
    requires |s| == w * h && i < h && j < w
  {
    OffsetInRange(w, h, i, j);
    s[Offset(w, i, j)]
  }

  /** The matrix a row-major buffer of `h` rows of `w` entries represents. */
  function Grid(s: seq<real>, w: nat, h: nat): (M: Mat)
    requires |s| == w * h
    ensures IsMat(M, h, w)
  {
    seq(h, i requires 0 <= i < h => seq(w, j requires 0 <= j < w => Entry(s, w, h, i, j)))
  }

  /** Two buffers read as the same matrix exactly when they are equal. */
  lemma GridInjective(s: seq<real>, t: seq<real>, w: nat, h: nat)
    requires w > 0 && |s| == w * h && |t| == w * h
    ensures Grid(s, w, h) == Grid(t, w, h) <==> s == t
  {
    if Grid(s, w, h) == Grid(t, w, h) {
      forall k | 0 <= k < |s| ensures s[k] == t[k] {
        var i, j := OffsetOnto(w, h, k);
        assert Grid(s, w, h)[i][j] == Grid(t, w, h)[i][j];
      }
    }
  }

  /** Writing slot `Offset(w, i, j)` writes element (i, j) and nothing else. */
  lemma GridUpdate(s: seq<real>, w: nat, h: nat, i: nat, j: nat, x: real)
    requires |s| == w * h && i < h && j < w
    ensures Offset(w, i, j) < |s|
    ensures Grid(s[Offset(w, i, j) := x], w, h) == Grid(s, w, h)[i := Grid(s, w, h)[i][j := x]]
  {
    OffsetInRange(w, h, i, j);
    var o := Offset(w, i, j);
    var L, R := Grid(s[o := x], w, h), Grid(s, w, h)[i := Grid(s, w, h)[i][j := x]];
    forall r, c | 0 <= r < h && 0 <= c < w ensures L[r][c] == R[r][c] {
      OffsetInRange(w, h, r, c);
      if r != i || c != j {
        if Offset(w, r, c) == o {
          OffsetInjective(w, r, c, i, j);
        }
      }
    }
    MatExt(L, R, h, w);
  }

  /** A buffer of zeros is the zero matrix. */
  lemma GridZeros(s: seq<real>, w: nat, h: nat)
    requires |s| == w * h
    requires forall k :: 0 <= k < |s| ==> s[k] == 0.0
    ensures Grid(s, w, h) == Zeros(h, w)
  {
    forall i, j | 0 <= i < h && 0 <= j < w ensures Grid(s, w, h)[i][j] == Zeros(h, w)[i][j] {
      OffsetInRange(w, h, i, j);
    }
    MatExt(Grid(s, w, h), Zeros(h, w), h, w);
  }

  /** Slot-wise addition of buffers is matrix addition. */
  lemma GridAdd(s: seq<real>, t: seq<real>, u: seq<real>, w: nat, h: nat)
    requires |s| == w * h && |t| == w * h && |u| == w * h
    requires forall k :: 0 <= k < |u| ==> u[k] == s[k] + t[k]
    ensures Grid(u, w, h) == MatAdd(Grid(s, w, h), Grid(t, w, h))
  {
    var S, T := Grid(s, w, h), Grid(t, w, h);
    if h > 0 {
      assert Width(S) == w;
      forall i, j | 0 <= i < h && 0 <= j < w ensures Grid(u, w, h)[i][j] == MatAdd(S, T)[i][j] {
        OffsetInRange(w, h, i, j);
      }
    }
    MatExt(Grid(u, w, h), MatAdd(S, T), h, w);
  }

  /** Slot-wise scaling of a buffer is scaling of the matrix. */
  lemma GridScale(s: seq<real>, d: real, u: seq<real>, w: nat, h: nat)
    requires |s| == w * h && |u| == w * h
    requires forall k :: 0 <= k < |u| ==> u[k] == s[k] * d
    ensures Grid(u, w, h) == MatScale(Grid(s, w, h), d)
  {
    var S := Grid(s, w, h);
    if h > 0 {
      assert Width(S) == w;
      forall i, j | 0 <= i < h && 0 <= j < w ensures Grid(u, w, h)[i][j] == MatScale(S, d)[i][j] {
        OffsetInRange(w, h, i, j);
      }
    }
    MatExt(Grid(u, w, h), MatScale(S, d), h, w);
  }

  // ---------------------------------------------------------------------------
  // struct matrix

  class Matrix {
    /** Number of columns. */
    const w: nat
    /** Number of rows. */
    const h: nat
    /** The row-major buffer. */
    const data: array<real>

    /** The invariant every allocated matrix keeps. */
    predicate Valid()
    {
      data.Length == w * h && w > 0 && h > 0
    }

    /** The matrix the buffer represents, as `h` rows of `w` entries. */
    ghost function Value(): (M: Mat)
      reads data
      requires Valid()
      ensures IsMat(M, h, w)
    {
      Grid(data[..], w, h)
    }

    /** The zero-filled matrix `calloc` gives (matrix_alloc after its checks). */
    constructor (w: nat, h: nat)
      requires w > 0 && h > 0
      ensures Valid() && this.w == w && this.h == h && fresh(data)
      ensures Value() == Zeros(h, w)
    {
      this.w, this.h := w, h;
      data := new real[w * h](_ => 0.0);
      new;
      GridZeros(data[..], w, h);
    }

    /** `*matrix_cptr(m, i, j)`: read element (i, j). */
    function Get(i: nat, j: nat): (x: real)
      reads data
      requires Valid() && i < h && j < w
      ensures x == Value()[i][j]
    {
      OffsetInRange(w, h, i, j);
      data[Offset(w, i, j)]
    }

    /** `*matrix_ptr(m, i, j) = x`: write element (i, j) and nothing else. */
    method Set(i: nat, j: nat, x: real)
      requires Valid() && i < h && j < w
      modifies data
      ensures Value() == old(Value())[i := old(Value())[i][j := x]]
    {
      OffsetInRange(w, h, i, j);
      GridUpdate(data[..], w, h, i, j, x);
      data[Offset(w, i, j)] := x;
    }
  }

  /** A possibly NULL matrix argument that is valid when present. */
  ghost predicate ValidOrNull(m: Matrix?)
  {
    m != null ==> m.Valid()
  }

  // ---------------------------------------------------------------------------
  // matrix.c

  /** matrix_alloc(w, h): NULL for an empty shape, else a fresh `h`-by-`w` zero matrix. */
  method Alloc(w: nat, h: nat) returns (m: Matrix?)
    ensures m == null <==> w == 0 || h == 0
    ensures m != null ==> fresh(m) && fresh(m.data) && m.Valid() && m.w == w && m.h == h
    ensures m != null ==> m.Value() == Zeros(h, w)
  {
    if w == 0 || h == 0 {
      return null;
    }
    m := new Matrix(w, h);
  }

  /** The `memcpy` of the whole buffer. */
  method CopyBuffer(dst: Matrix, src: Matrix)
    requires dst.Valid() && src.Valid() && dst.w == src.w && dst.h == src.h
    modifies dst.data
    ensures dst.data[..] == old(src.data[..])
    ensures dst.Value() == old(src.Value())
  {
    ghost var s := src.data[..];
    forall k | 0 <= k < dst.data.Length {
      dst.data[k] := src.data[k];
    }
    assert dst.data[..] == s;
  }

  /** matrix_copy: NULL for NULL, else a fresh matrix of the same shape and contents. */
  method Copy(m: Matrix?) returns (c: Matrix?)
    requires ValidOrNull(m)
    ensures c == null <==> m == null
    ensures c != null ==> fresh(c) && fresh(c.data) && c.Valid()
    ensures c != null ==> c.w == m.w && c.h == m.h && c.Value() == m.Value()
  {
    if m == null {
      return null;
    }
    c := Alloc(m.w, m.h);
    CopyBuffer(c, m);
  }

  /** matrix_rows: 0 for NULL, else the number of rows (never 0 for a valid matrix). */
  function Rows(m: Matrix?): (r: nat)
    requires ValidOrNull(m)
    ensures r == 0 <==> m == null
    ensures m != null ==> r == |m.Value()|
  {
    if m != null then m.h else 0
  }

  /** matrix_cols: 0 for NULL, else the number of columns (never 0 for a valid matrix). */
  function Cols(m: Matrix?): (r: nat)
    requires ValidOrNull(m)
    ensures r == 0 <==> m == null
    ensures m != null ==> r == Width(m.Value())
  {
    if m != null then m.w else 0
  }

  /** matrix_alloc_id(n): NULL for 0, else a fresh n-by-n identity matrix. */
  method AllocId(n: nat) returns (m: Matrix?)
    ensures m == null <==> n == 0
    ensures m != null ==> fresh(m) && fresh(m.data) && m.Valid() && m.w == n && m.h == n
    ensures m != null ==> m.Value() == Identity(n)
  {
    if n == 0 {
      return null;
    }
    m := Alloc(n, n);
    var i := 0;
    while i < n
      invariant i <= n
      invariant m.Valid() && m.w == n && m.h == n
      invariant forall r, c :: 0 <= r < n && 0 <= c < n ==>
        m.Value()[r][c] == if r == c && r < i then 1.0 else 0.0
    {
      m.Set(i, i, 1.0);
      i := i + 1;
    }
    MatExt(m.Value(), Identity(n), n, n);
  }

  /** Whether two present matrices have the same shape. */
  predicate SameShape(m1: Matrix, m2: Matrix)
  {
    m1.w == m2.w && m1.h == m2.h
  }

  /**
   * matrix_assign(m1, m2): NULL (and `m1` untouched) on a NULL operand or a
   * shape mismatch; else `m1` takes `m2`'s contents and is returned.
   */
  method Assign(m1: Matrix?, m2: Matrix?) returns (r: Matrix?)
    requires ValidOrNull(m1) && ValidOrNull(m2)
    modifies if m1 != null then {m1.data} else {}
    ensures r == null <==> m1 == null || m2 == null || !SameShape(m1, m2)
    ensures r == null && m1 != null ==> unchanged(m1.data)
    ensures r != null ==> r == m1 && m1.Value() == old(m2.Value())
  {
    if m1 == null || m2 == null {
      return null;
    }
    if m1.w != m2.w || m1.h != m2.h {
      return null;
    }
    CopyBuffer(m1, m2);
    return m1;
  }

  /**
   * matrix_add(m1, m2): -1 (and `m1` untouched) on a NULL operand or a shape
   * mismatch; else 0 and `m1 := m1 + m2`. Also right when `m1` and `m2` are
   * the same matrix (the sum is then `2 * m1`).
   */
  method Add(m1: Matrix?, m2: Matrix?) returns (status: int)
    requires ValidOrNull(m1) && ValidOrNull(m2)
    modifies if m1 != null then {m1.data} else {}
    ensures status == -1 || status == 0
    ensures status == -1 <==> m1 == null || m2 == null || !SameShape(m1, m2)
    ensures status == -1 && m1 != null ==> unchanged(m1.data)
    ensures status == 0 ==> m1.Value() == MatAdd(old(m1.Value()), old(m2.Value()))
  {
    if m1 == null || m2 == null {
      return -1;
    }
    if m1.w != m2.w || m1.h != m2.h {
      return -1;
    }
    ghost var s1, s2 := m1.data[..], m2.data[..];
    var total := m1.w * m1.h;
    var k := 0;
    while k < total
      invariant k <= total
      invariant forall t :: 0 <= t < k ==> m1.data[t] == s1[t] + s2[t]
      invariant forall t :: k <= t < total ==> m1.data[t] == s1[t] && m2.data[t] == s2[t]
    {
      m1.data[k] := m1.data[k] + m2.data[k];
      k := k + 1;
    }
    GridAdd(s1, s2, m1.data[..], m1.w, m1.h);
    return 0;
  }

  /** matrix_smul(m, d): every element multiplied by `d`; nothing for NULL. */
  method SMul(m: Matrix?, d: real)
    requires ValidOrNull(m)
    modifies if m != null then {m.data} else {}
    ensures m != null ==> m.Value() == MatScale(old(m.Value()), d)
  {
    if m == null {
      return;
    }
    ghost var s := m.data[..];
    var total := m.w * m.h;
    var k := 0;
    while k < total
      invariant k <= total
      invariant forall t :: 0 <= t < k ==> m.data[t] == s[t] * d
      invariant forall t :: k <= t < total ==> m.data[t] == s[t]
    {
      m.data[k] := m.data[k] * d;
      k := k + 1;
    }
    GridScale(s, d, m.data[..], m.w, m.h);
  }

  /** matrix_sdiv(m, d): multiplication by `1/d`; nothing for NULL or `d == 0`. */
  method SDiv(m: Matrix?, d: real)
    requires ValidOrNull(m)
    modifies if m != null then {m.data} else {}
    ensures m != null && d == 0.0 ==> unchanged(m.data)
    ensures m != null && d != 0.0 ==> m.Value() == MatScale(old(m.Value()), 1.0 / d)
  {
    if m == null || d == 0.0 {
      return;
    }
    SMul(m, 1.0 / d);
  }

  /**
   * matrix_norm: -1 for NULL, else the infinity norm (largest absolute row
   * sum), which is never negative.
   */
  method Norm(m: Matrix?) returns (r: real)
    requires ValidOrNull(m)
    ensures m == null ==> r == -1.0
    ensures m != null ==> r == InfNorm(m.Value()) && r >= 0.0
  {
    if m == null {
      return -1.0;
    }
    ghost var M := m.Value();
    var maxSum := 0.0;
    var i := 0;
    while i < m.h
      invariant i <= m.h
      invariant maxSum == NormUpTo(M, i)
    {
      var rowSum := 0.0;
      var j := 0;
      while j < m.w
        invariant j <= m.w
        invariant rowSum == Sum(AbsRow(M[i])[..j])
      {
        SumPrefix(AbsRow(M[i]), j);
        rowSum := rowSum + Abs(m.Get(i, j));
        j := j + 1;
      }
      assert AbsRow(M[i])[..j] == AbsRow(M[i]);
      if rowSum > maxSum {
        maxSum := rowSum;
      }
      i := i + 1;
    }
    InfNormIsMax(M);
    return maxSum;
  }

  /** The innermost loop of matrix_multiply: entry (i, j) of `a * b`. */
  method DotLoop(a: Matrix, b: Matrix, i: nat, j: nat) returns (sum: real)
    requires a.Valid() && b.Valid() && a.w == b.h && i < a.h && j < b.w
    ensures sum == Dot(a.Value(), b.Value(), i, j)
  {
    ghost var terms := Terms(a.Value(), b.Value(), i, j);
    sum := 0.0;
    var k := 0;
    while k < a.w
      invariant k <= a.w
      invariant sum == Sum(terms[..k])
    {
      SumPrefix(terms, k);
      sum := sum + a.Get(i, k) * b.Get(k, j);
      k := k + 1;
    }
    assert terms[..k] == terms;
  }

  /**
   * The triple loop of matrix_multiply and gauss_matrix_multiply, once the
   * shapes are known to agree: `res := a * b`. When `res` shares its buffer
   * with `a` or `b`, the loop reads entries it has already overwritten; the
   * product is promised only without such sharing.
   */
  method MultiplyInto(res: Matrix, a: Matrix, b: Matrix)
    requires res.Valid() && a.Valid() && b.Valid()
    requires a.w == b.h && res.h == a.h && res.w == b.w
    modifies res.data
    ensures res.data != a.data && res.data != b.data ==>
      res.Value() == MatMul(old(a.Value()), old(b.Value()))
  {
    ghost var A, B := a.Value(), b.Value();
    ghost var apart := res.data != a.data && res.data != b.data;
    var i := 0;
    while i < a.h
      invariant i <= a.h
      invariant apart ==> a.Value() == A && b.Value() == B
      invariant apart ==> forall r, c :: 0 <= r < i && 0 <= c < b.w ==> res.Value()[r][c] == Dot(A, B, r, c)
    {
      var j := 0;
      while j < b.w
        invariant j <= b.w
        invariant apart ==> a.Value() == A && b.Value() == B
        invariant apart ==> forall r, c :: 0 <= r < i && 0 <= c < b.w ==> res.Value()[r][c] == Dot(A, B, r, c)
        invariant apart ==> forall c :: 0 <= c < j ==> res.Value()[i][c] == Dot(A, B, i, c)
      {
        var sum := DotLoop(a, b, i, j);
        res.Set(i, j, sum);
        j := j + 1;
      }
      i := i + 1;
    }
    if apart {
      MatExt(res.Value(), MatMul(A, B), a.h, b.w);
    }
  }

  /**
   * matrix_multiply(res, a, b): -1 (and nothing written) on a NULL operand,
   * `cols(a) != rows(b)`, or a result that is not `rows(a)`-by-`cols(b)`;
   * else 0 and `res := a * b` (when `res` is a separate matrix).
   */
  method Multiply(res: Matrix?, a: Matrix?, b: Matrix?) returns (status: int)
    requires ValidOrNull(res) && ValidOrNull(a) && ValidOrNull(b)
    modifies if res != null then {res.data} else {}
    ensures status == -1 || status == 0
    ensures status == -1 <==>
      res == null || a == null || b == null || a.w != b.h || res.h != a.h || res.w != b.w
    ensures status == -1 && res != null ==> unchanged(res.data)
    ensures status == 0 && res.data != a.data && res.data != b.data ==>
      res.Value() == MatMul(old(a.Value()), old(b.Value()))
  {
    if res == null || a == null || b == null {
      return -1;
    }
    if a.w != b.h {
      return -1;
    }
    if res.h != a.h || res.w != b.w {
      return -1;
    }
    MultiplyInto(res, a, b);
    return 0;
  }
}
