/** Dense integer matrices as sequences of rows, standing in for the float64
    NumPy arrays of the ring multiply. */
module Matrices {

  type Matrix = seq<seq<int>>

  predicate IsMatrix(m: Matrix, rows: nat, cols: nat)
  {
    |m| == rows && forall i :: 0 <= i < rows ==> |m[i]| == cols
  }

  /** A rows x cols matrix with every entry v (`np.ones`, `np.zeros`). */
  function Constant(rows: nat, cols: nat, v: int): (m: Matrix)
    ensures IsMatrix(m, rows, cols)
    ensures forall i, j :: 0 <= i < rows && 0 <= j < cols ==> m[i][j] == v
  {
    seq(rows, _ => seq(cols, _ => v))
  }

  /** The partial inner product of row i of a with column j of b over the
      index range [lo, hi). */
  function RowColSum(a: Matrix, i: nat, b: Matrix, j: nat, lo: nat, hi: nat): int
    requires i < |a| && lo <= hi <= |a[i]| && hi <= |b|
    requires forall k :: lo <= k < hi ==> j < |b[k]|
    decreases hi - lo
  {
    if lo == hi then 0 else RowColSum(a, i, b, j, lo, hi - 1) + a[i][hi - 1] * b[hi - 1][j]
  }

  /** The matrix product `a @ b` of an m x K and a K x cols matrix. */
  function MatMul(a: Matrix, b: Matrix, cols: nat): (c: Matrix)
    requires forall i :: 0 <= i < |a| ==> |a[i]| == |b|
    requires IsMatrix(b, |b|, cols)
    ensures IsMatrix(c, |a|, cols)
  {
    seq(|a|, i requires 0 <= i < |a| =>
      seq(cols, j requires 0 <= j < cols => RowColSum(a, i, b, j, 0, |b|)))
  }

  /** Columns [lo, hi) of every row (`A[:, lo:hi]`). */
  function ColSlice(a: Matrix, lo: nat, hi: nat): (s: Matrix)
    requires lo <= hi
    requires forall i :: 0 <= i < |a| ==> hi <= |a[i]|
    ensures IsMatrix(s, |a|, hi - lo)
    ensures forall i, k :: 0 <= i < |a| && 0 <= k < hi - lo ==> s[i][k] == a[i][lo + k]
  {
    seq(|a|, i requires 0 <= i < |a| => a[i][lo..hi])
  }

  /** Entry-wise sum of two matrices of the same shape (`C += D`). */
  function MatAdd(c: Matrix, d: Matrix, rows: nat, cols: nat): (s: Matrix)
    requires IsMatrix(c, rows, cols) && IsMatrix(d, rows, cols)
    ensures IsMatrix(s, rows, cols)
    ensures forall i, j :: 0 <= i < rows && 0 <= j < cols ==> s[i][j] == c[i][j] + d[i][j]
  {
    seq(rows, i requires 0 <= i < rows =>
      seq(cols, j requires 0 <= j < cols => c[i][j] + d[i][j]))
  }

  /** Two matrices of one shape with equal entries are equal. */
  lemma EqualByEntries(c: Matrix, d: Matrix, rows: nat, cols: nat)
    requires IsMatrix(c, rows, cols) && IsMatrix(d, rows, cols)
    requires forall i, j :: 0 <= i < rows && 0 <= j < cols ==> c[i][j] == d[i][j]
    ensures c == d
  {
    forall i | 0 <= i < rows
      ensures c[i] == d[i]
    {
    }
  }

  /** Inner products over adjacent index ranges add up. */
  lemma {:induction false} RowColSumSplit(a: Matrix, i: nat, b: Matrix, j: nat, lo: nat, mid: nat, hi: nat)
    requires i < |a| && lo <= mid <= hi <= |a[i]| && hi <= |b|
    requires forall k :: lo <= k < hi ==> j < |b[k]|
    ensures RowColSum(a, i, b, j, lo, mid) + RowColSum(a, i, b, j, mid, hi) == RowColSum(a, i, b, j, lo, hi)
    decreases hi - mid
  {
    if mid < hi {
      RowColSumSplit(a, i, b, j, lo, mid, hi - 1);
    }
  }

  /** An inner product over slices equals the inner product of the original
      matrices over the matching shifted range. */
  lemma {:induction false} RowColSumShift(u: Matrix, i: nat, v: Matrix, a: Matrix, row: nat, b: Matrix,
                                         j: nat, lo: nat, t: nat)
    requires i < |u| && t <= |u[i]| && t <= |v| && forall k :: 0 <= k < t ==> j < |v[k]|
    requires row < |a| && lo + t <= |a[row]| && lo + t <= |b| && forall k :: lo <= k < lo + t ==> j < |b[k]|
    requires forall k :: 0 <= k < t ==> u[i][k] == a[row][lo + k] && v[k][j] == b[lo + k][j]
    ensures RowColSum(u, i, v, j, 0, t) == RowColSum(a, row, b, j, lo, lo + t)
  {
    if t > 0 {
      RowColSumShift(u, i, v, a, row, b, j, lo, t - 1);
    }
  }

  /** With all-ones operands every partial inner product counts its range. */
  lemma {:induction false} RowColSumOfOnes(a: Matrix, i: nat, b: Matrix, j: nat, lo: nat, hi: nat)
    requires i < |a| && lo <= hi <= |a[i]| && hi <= |b|
    requires forall k :: lo <= k < hi ==> j < |b[k]| && a[i][k] == 1 && b[k][j] == 1
    ensures RowColSum(a, i, b, j, lo, hi) == hi - lo
    decreases hi - lo
  {
    if lo < hi {
      RowColSumOfOnes(a, i, b, j, lo, hi - 1);
    }
  }
}
