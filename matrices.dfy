/**
 * Dense real matrices with the operations the solver takes from Jama.Matrix and JamaUtils
 * (allocation, ones, transpose, product, sum, negation, scaling, row and column gathering,
 * row and column concatenation), each given by its evident meaning on sequences.
 * Floating-point rounding is not modelled: entries are mathematical reals.
 */
module Matrices {

  /** A rows x cols matrix; `at[i][j]` is entry (i, j). The dimensions are kept apart from
      the entries so that a matrix with no rows still has a column count, as in Jama. */
  datatype Matrix = Matrix(rows: nat, cols: nat, at: seq<seq<real>>)

  ghost predicate Shaped(m: Matrix, r: nat, c: nat) {
    && m.rows == r && m.cols == c && |m.at| == r
    && forall i :: 0 <= i < r ==> |m.at[i]| == c
  }

  ghost predicate WellFormed(m: Matrix) {
    Shaped(m, m.rows, m.cols)
  }

  /** A square matrix whose off-diagonal entries are all zero. */
  ghost predicate IsDiagonal(m: Matrix) {
    && WellFormed(m) && m.rows == m.cols
    && forall i, j :: 0 <= i < m.rows && 0 <= j < m.cols && i != j ==> m.at[i][j] == 0.0
  }

  /** Column j of m as a sequence. */
  function Column(m: Matrix, j: nat): (v: seq<real>)
    requires WellFormed(m) && j < m.cols
    ensures |v| == m.rows
    ensures forall i {:trigger v[i]} :: 0 <= i < m.rows ==> v[i] == m.at[i][j]
  {
    seq(m.rows, i requires 0 <= i < m.rows => m.at[i][j])
  }

  /** A column vector holding v: `new Jama.Matrix(v, |v|)`. */
  function OfColumn(v: seq<real>): (m: Matrix)
    ensures Shaped(m, |v|, 1)
    ensures forall i {:trigger m.at[i][0]} :: 0 <= i < |v| ==> m.at[i][0] == v[i]
  {
    Matrix(|v|, 1, seq(|v|, i requires 0 <= i < |v| => [v[i]]))
  }

  /** Two matrices of the same shape with the same entries are equal. */
  lemma SameEntries(a: Matrix, b: Matrix)
    requires WellFormed(a) && Shaped(b, a.rows, a.cols)
    requires forall i, j :: 0 <= i < a.rows && 0 <= j < a.cols ==> a.at[i][j] == b.at[i][j]
    ensures a == b
  {
    assert forall i :: 0 <= i < a.rows ==> a.at[i] == b.at[i];
  }

  // --- Sums -----------------------------------------------------------------------------

  function Sum(s: seq<real>): real
    decreases |s|
  {
    if |s| == 0 then 0.0 else s[0] + Sum(s[1..])
  }

  lemma {:induction false} SumOfZeros(s: seq<real>)
    requires forall t :: 0 <= t < |s| ==> s[t] == 0.0
    ensures Sum(s) == 0.0
    decreases |s|
  {
    if |s| > 0 {
      SumOfZeros(s[1..]);
    }
  }

  /** A sum with a single possibly non-zero term is that term. */
  lemma {:induction false} SumSingle(s: seq<real>, p: int)
    requires 0 <= p < |s|
    requires forall t :: 0 <= t < |s| && t != p ==> s[t] == 0.0
    ensures Sum(s) == s[p]
    decreases |s|
  {
    if p == 0 {
      SumOfZeros(s[1..]);
    } else {
      SumSingle(s[1..], p - 1);
    }
  }

  /** A sum with two possibly non-zero terms is their sum. */
  lemma {:induction false} SumPair(s: seq<real>, p: int, q: int)
    requires 0 <= p < |s| && 0 <= q < |s| && p != q
    requires forall t :: 0 <= t < |s| && t != p && t != q ==> s[t] == 0.0
    ensures Sum(s) == s[p] + s[q]
    decreases |s|
  {
    if p == 0 {
      SumSingle(s[1..], q - 1);
    } else if q == 0 {
      SumSingle(s[1..], p - 1);
    } else {
      SumPair(s[1..], p - 1, q - 1);
    }
  }

  /** Adding a term at the end adds it to the sum. */
  lemma {:induction false} SumSnoc(s: seq<real>, t: real)
    ensures Sum(s + [t]) == Sum(s) + t
    decreases |s|
  {
    if |s| == 0 {
      assert s + [t] == [t];
    } else {
      assert (s + [t])[1..] == s[1..] + [t];
      SumSnoc(s[1..], t);
    }
  }

  lemma {:induction false} SumNonnegative(s: seq<real>)
    requires forall t :: 0 <= t < |s| ==> s[t] >= 0.0
    ensures Sum(s) >= 0.0
    decreases |s|
  {
    if |s| > 0 {
      SumNonnegative(s[1..]);
    }
  }

  // --- Allocation -----------------------------------------------------------------------

  /** `new Jama.Matrix(r, c)`: every entry is zero. */
  function Zeros(r: nat, c: nat): (m: Matrix)
    ensures Shaped(m, r, c)
    ensures forall i, j :: 0 <= i < r && 0 <= j < c ==> m.at[i][j] == 0.0
  {
    Matrix(r, c, seq(r, _ => seq(c, _ => 0.0)))
  }

  /** `JamaUtils.ones(r, c)`: every entry is one. */
  function Ones(r: nat, c: nat): (m: Matrix)
    ensures Shaped(m, r, c)
    ensures forall i, j :: 0 <= i < r && 0 <= j < c ==> m.at[i][j] == 1.0
  {
    Matrix(r, c, seq(r, _ => seq(c, _ => 1.0)))
  }

  // --- Entrywise operations -------------------------------------------------------------

  /** `m.times(s)` for a scalar s (also `timesEquals` on a fresh matrix). */
  function Scale(m: Matrix, s: real): (r: Matrix)
    requires WellFormed(m)
    ensures Shaped(r, m.rows, m.cols)
    ensures forall i, j {:trigger r.at[i][j]} :: 0 <= i < m.rows && 0 <= j < m.cols ==> r.at[i][j] == s * m.at[i][j]
  {
    Matrix(m.rows, m.cols,
      seq(m.rows, i requires 0 <= i < m.rows =>
        seq(m.cols, j requires 0 <= j < m.cols => s * m.at[i][j])))
  }

  /** `m.uminus()`. */
  function Negate(m: Matrix): (r: Matrix)
    requires WellFormed(m)
    ensures Shaped(r, m.rows, m.cols)
    ensures forall i, j {:trigger r.at[i][j]} :: 0 <= i < m.rows && 0 <= j < m.cols ==> r.at[i][j] == -m.at[i][j]
  {
    Matrix(m.rows, m.cols,
      seq(m.rows, i requires 0 <= i < m.rows =>
        seq(m.cols, j requires 0 <= j < m.cols => -m.at[i][j])))
  }

  /** `a.plus(b)`. */
  function Plus(a: Matrix, b: Matrix): (r: Matrix)
    requires WellFormed(a) && Shaped(b, a.rows, a.cols)
    ensures Shaped(r, a.rows, a.cols)
    ensures forall i, j {:trigger r.at[i][j]} :: 0 <= i < a.rows && 0 <= j < a.cols ==> r.at[i][j] == a.at[i][j] + b.at[i][j]
  {
    Matrix(a.rows, a.cols,
      seq(a.rows, i requires 0 <= i < a.rows =>
        seq(a.cols, j requires 0 <= j < a.cols => a.at[i][j] + b.at[i][j])))
  }

  /** `m.transpose()`. */
  function Transpose(m: Matrix): (r: Matrix)
    requires WellFormed(m)
    ensures Shaped(r, m.cols, m.rows)
    ensures forall i, j {:trigger r.at[i][j]} :: 0 <= i < m.cols && 0 <= j < m.rows ==> r.at[i][j] == m.at[j][i]
  {
    Matrix(m.cols, m.rows,
      seq(m.cols, i requires 0 <= i < m.cols =>
        seq(m.rows, j requires 0 <= j < m.rows => m.at[j][i])))
  }

  // --- Product --------------------------------------------------------------------------

  /** The terms a[i][t] * b[t][j] whose sum is entry (i, j) of the product. */
  function Products(a: Matrix, b: Matrix, i: nat, j: nat): (s: seq<real>)
    requires WellFormed(a) && WellFormed(b) && a.cols == b.rows && i < a.rows && j < b.cols
    ensures |s| == a.cols
    ensures forall t {:trigger s[t]} :: 0 <= t < a.cols ==> s[t] == a.at[i][t] * b.at[t][j]
  {
    seq(a.cols, t requires 0 <= t < a.cols => a.at[i][t] * b.at[t][j])
  }

  /** `a.times(b)`. */
  function Times(a: Matrix, b: Matrix): (r: Matrix)
    requires WellFormed(a) && WellFormed(b) && a.cols == b.rows
    ensures Shaped(r, a.rows, b.cols)
    ensures forall i, j {:trigger r.at[i][j]} :: 0 <= i < a.rows && 0 <= j < b.cols ==> r.at[i][j] == Sum(Products(a, b, i, j))
  {
    Matrix(a.rows, b.cols,
      seq(a.rows, i requires 0 <= i < a.rows =>
        seq(b.cols, j requires 0 <= j < b.cols => Sum(Products(a, b, i, j)))))
  }

  /** Multiplying by a diagonal matrix on the left scales row i by its i-th diagonal entry. */
  lemma DiagonalTimes(d: Matrix, m: Matrix)
    requires IsDiagonal(d) && WellFormed(m) && d.cols == m.rows
    ensures forall i, j {:trigger Times(d, m).at[i][j]} :: 0 <= i < d.rows && 0 <= j < m.cols ==>
      Times(d, m).at[i][j] == d.at[i][i] * m.at[i][j]
  {
    forall i, j {:trigger Times(d, m).at[i][j]} | 0 <= i < d.rows && 0 <= j < m.cols
      ensures Times(d, m).at[i][j] == d.at[i][i] * m.at[i][j]
    {
      SumSingle(Products(d, m, i, j), i);
    }
  }

  /** Multiplying by a diagonal matrix on the right scales column j by its j-th diagonal entry. */
  lemma TimesDiagonal(m: Matrix, d: Matrix)
    requires IsDiagonal(d) && WellFormed(m) && m.cols == d.rows
    ensures forall i, j {:trigger Times(m, d).at[i][j]} :: 0 <= i < m.rows && 0 <= j < d.cols ==>
      Times(m, d).at[i][j] == m.at[i][j] * d.at[j][j]
  {
    forall i, j {:trigger Times(m, d).at[i][j]} | 0 <= i < m.rows && 0 <= j < d.cols
      ensures Times(m, d).at[i][j] == m.at[i][j] * d.at[j][j]
    {
      SumSingle(Products(m, d, i, j), j);
    }
  }

  // --- Gathering and concatenation (JamaUtils) ------------------------------------------

  /** `JamaUtils.getcolumns(m, idx)`: column k of the result is column idx[k] of m. */
  function GetColumns(m: Matrix, idx: seq<int>): (r: Matrix)
    requires WellFormed(m) && forall k :: 0 <= k < |idx| ==> 0 <= idx[k] < m.cols
    ensures Shaped(r, m.rows, |idx|)
    ensures forall i, k {:trigger r.at[i][k]} :: 0 <= i < m.rows && 0 <= k < |idx| ==> r.at[i][k] == m.at[i][idx[k]]
  {
    Matrix(m.rows, |idx|,
      seq(m.rows, i requires 0 <= i < m.rows =>
        seq(|idx|, k requires 0 <= k < |idx| => m.at[i][idx[k]])))
  }

  /** `JamaUtils.getrows(m, idx)`: row k of the result is row idx[k] of m. */
  function GetRows(m: Matrix, idx: seq<int>): (r: Matrix)
    requires WellFormed(m) && forall k :: 0 <= k < |idx| ==> 0 <= idx[k] < m.rows
    ensures Shaped(r, |idx|, m.cols)
    ensures forall k, j {:trigger r.at[k][j]} :: 0 <= k < |idx| && 0 <= j < m.cols ==> r.at[k][j] == m.at[idx[k]][j]
  {
    Matrix(|idx|, m.cols, seq(|idx|, k requires 0 <= k < |idx| => m.at[idx[k]]))
  }

  /** `JamaUtils.columnAppend(a, b)`: the columns of a followed by the columns of b. */
  function ColumnAppend(a: Matrix, b: Matrix): (r: Matrix)
    requires WellFormed(a) && WellFormed(b) && a.rows == b.rows
    ensures Shaped(r, a.rows, a.cols + b.cols)
    ensures forall i, k {:trigger r.at[i][k]} :: 0 <= i < a.rows && 0 <= k < a.cols ==> r.at[i][k] == a.at[i][k]
    ensures forall i, k {:trigger r.at[i][k]} :: 0 <= i < a.rows && a.cols <= k < a.cols + b.cols ==> r.at[i][k] == b.at[i][k - a.cols]
  {
    Matrix(a.rows, a.cols + b.cols,
      seq(a.rows, i requires 0 <= i < a.rows =>
        seq(a.cols + b.cols, k requires 0 <= k < a.cols + b.cols => if k < a.cols then a.at[i][k] else b.at[i][k - a.cols])))
  }

  /** `JamaUtils.rowAppend(a, b)`: the rows of a followed by the rows of b. */
  function RowAppend(a: Matrix, b: Matrix): (r: Matrix)
    requires WellFormed(a) && WellFormed(b) && a.cols == b.cols
    ensures Shaped(r, a.rows + b.rows, a.cols)
    ensures forall k, j {:trigger r.at[k][j]} :: 0 <= k < a.rows && 0 <= j < a.cols ==> r.at[k][j] == a.at[k][j]
    ensures forall k, j {:trigger r.at[k][j]} :: a.rows <= k < a.rows + b.rows && 0 <= j < a.cols ==> r.at[k][j] == b.at[k - a.rows][j]
  {
    Matrix(a.rows + b.rows, a.cols,
      seq(a.rows + b.rows, k requires 0 <= k < a.rows + b.rows => if k < a.rows then a.at[k] else b.at[k - a.rows]))
  }

  /** Rows lo..hi-1 of m. */
  function RowRange(m: Matrix, lo: nat, hi: nat): (r: Matrix)
    requires WellFormed(m) && lo <= hi <= m.rows
    ensures Shaped(r, hi - lo, m.cols)
    ensures forall k, j {:trigger r.at[k][j]} :: 0 <= k < hi - lo && 0 <= j < m.cols ==> r.at[k][j] == m.at[lo + k][j]
  {
    Matrix(hi - lo, m.cols, seq(hi - lo, k requires 0 <= k < hi - lo => m.at[lo + k]))
  }

  /** Cutting a row concatenation at the seam gives back its two parts. */
  lemma RowRangeOfAppend(a: Matrix, b: Matrix)
    requires WellFormed(a) && WellFormed(b) && a.cols == b.cols
    ensures RowRange(RowAppend(a, b), 0, a.rows) == a
    ensures RowRange(RowAppend(a, b), a.rows, a.rows + b.rows) == b
  {
    SameEntries(RowRange(RowAppend(a, b), 0, a.rows), a);
    SameEntries(RowRange(RowAppend(a, b), a.rows, a.rows + b.rows), b);
  }
}
