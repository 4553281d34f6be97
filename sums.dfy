/**
 * Finite sums and maxima over exact reals, in the left-to-right order in which
 * the library's loops accumulate them (`sum += x`, `if (x > max) max = x`).
 */
module Sums {

  /** `fabs`. */
  function Abs(x: real): (r: real)
    ensures r >= 0.0
  {
    if x < 0.0 then -x else x
  }

  /** The running-maximum update `if (b > a) a = b;`. */
  function Max(a: real, b: real): (r: real)
    ensures r >= a && r >= b && (r == a || r == b)
  {
    if b > a then b else a
  }

  /** `s[0] + s[1] + ... + s[|s|-1]`, accumulated from the left. */
  function Sum(s: seq<real>): real
  {
    if |s| == 0 then 0.0 else Sum(s[..|s| - 1]) + s[|s| - 1]
  }

  /** A prefix sum grows by the next element. */
  lemma SumPrefix(s: seq<real>, k: nat)
    requires k < |s|
    ensures Sum(s[..k + 1]) == Sum(s[..k]) + s[k]
  {
    assert s[..k + 1][..k] == s[..k];
  }

  /** Sums are additive: if `u = s + t` pointwise then `Sum(u) = Sum(s) + Sum(t)`. */
  lemma {:induction false} SumAdd(s: seq<real>, t: seq<real>, u: seq<real>)
    requires |s| == |t| == |u|
    requires forall i :: 0 <= i < |u| ==> u[i] == s[i] + t[i]
    ensures Sum(u) == Sum(s) + Sum(t)
  {
    if |u| > 0 {
      var n := |u| - 1;
      SumAdd(s[..n], t[..n], u[..n]);
    }
  }

  /** Sums are homogeneous: if `u = c * s` pointwise then `Sum(u) = c * Sum(s)`. */
  lemma {:induction false} SumScale(s: seq<real>, c: real, u: seq<real>)
    requires |s| == |u|
    requires forall i :: 0 <= i < |u| ==> u[i] == c * s[i]
    ensures Sum(u) == c * Sum(s)
  {
    if |u| > 0 {
      var n := |u| - 1;
      SumScale(s[..n], c, u[..n]);
    }
  }

  /** Pointwise equal sequences have equal sums. */
  lemma SumExt(s: seq<real>, t: seq<real>)
    requires |s| == |t|
    requires forall i :: 0 <= i < |s| ==> s[i] == t[i]
    ensures Sum(s) == Sum(t)
  {
    assert s == t;
  }

  /** Changing one summand changes the sum by the difference. */
  lemma {:induction false} SumUpdate(s: seq<real>, k: nat, v: real)
    requires k < |s|
    ensures Sum(s[k := v]) == Sum(s) - s[k] + v
  {
    var n := |s| - 1;
    if k == n {
      assert s[k := v][..n] == s[..n];
    } else {
      SumUpdate(s[..n], k, v);
      assert s[k := v][..n] == s[..n][k := v];
    }
  }

  /** Sums of pointwise ordered sequences are ordered. */
  lemma {:induction false} SumMono(s: seq<real>, t: seq<real>)
    requires |s| == |t|
    requires forall i :: 0 <= i < |s| ==> s[i] <= t[i]
    ensures Sum(s) <= Sum(t)
  {
    if |s| > 0 {
      SumMono(s[..|s| - 1], t[..|t| - 1]);
    }
  }

  lemma {:induction false} SumNonneg(s: seq<real>)
    requires forall i :: 0 <= i < |s| ==> s[i] >= 0.0
    ensures Sum(s) >= 0.0
  {
    if |s| > 0 {
      SumNonneg(s[..|s| - 1]);
    }
  }

  lemma {:induction false} SumZeros(s: seq<real>)
    requires forall i :: 0 <= i < |s| ==> s[i] == 0.0
    ensures Sum(s) == 0.0
  {
    if |s| > 0 {
      SumZeros(s[..|s| - 1]);
    }
  }

  /** A sum whose only nonzero summand is at `k` equals that summand. */
  lemma SumSingle(s: seq<real>, k: nat)
    requires k < |s|
    requires forall i :: 0 <= i < |s| && i != k ==> s[i] == 0.0
    ensures Sum(s) == s[k]
  {
    var z := s[k := 0.0];
    SumZeros(z);
    SumUpdate(z, k, s[k]);
    assert z[k := s[k]] == s;
  }

  /** The triangle inequality for finite sums: `a` holds the magnitudes of `s`. */
  lemma {:induction false} SumAbs(s: seq<real>, a: seq<real>)
    requires |s| == |a|
    requires forall i :: 0 <= i < |s| ==> a[i] == Abs(s[i])
    ensures Abs(Sum(s)) <= Sum(a)
  {
    if |s| > 0 {
      var n := |s| - 1;
      SumAbs(s[..n], a[..n]);
    }
  }

  /** Column `t` of a rectangular array of reals. */
  function Column(G: seq<seq<real>>, t: nat): seq<real>
    requires forall s :: 0 <= s < |G| ==> t < |G[s]|
  {
    seq(|G|, s requires 0 <= s < |G| => G[s][t])
  }

  function RowSums(G: seq<seq<real>>): seq<real>
  {
    seq(|G|, s requires 0 <= s < |G| => Sum(G[s]))
  }

  function ColumnSums(G: seq<seq<real>>, p: nat): seq<real>
    requires forall s :: 0 <= s < |G| ==> |G[s]| == p
  {
    seq(p, t requires 0 <= t < p => Sum(Column(G, t)))
  }

  /** A finite double sum may be taken rows-first or columns-first. */
  lemma {:induction false} SumSwap(G: seq<seq<real>>, p: nat)
    requires forall s :: 0 <= s < |G| ==> |G[s]| == p
    ensures Sum(RowSums(G)) == Sum(ColumnSums(G, p))
  {
    if |G| == 0 {
      SumZeros(ColumnSums(G, p));
    } else {
      var q := |G| - 1;
      var H := G[..q];
      SumSwap(H, p);
      assert RowSums(G)[..q] == RowSums(H);
      var last := G[q];
      forall t | 0 <= t < p
        ensures ColumnSums(G, p)[t] == ColumnSums(H, p)[t] + last[t]
      {
        assert Column(G, t)[..q] == Column(H, t);
      }
      SumAdd(ColumnSums(H, p), last, ColumnSums(G, p));
    }
  }
}
