/** The matrix helper of Misc.java that the solver uses: building a diagonal matrix. */
module Misc {
  import opened Wrappers
  import opened Exceptions
  import opened Matrices

  /** The square matrix with v on its diagonal and zeros elsewhere. */
  function Diagonal(v: seq<real>): (d: Matrix)
    ensures IsDiagonal(d) && Shaped(d, |v|, |v|)
    ensures forall i {:trigger d.at[i][i]} :: 0 <= i < |v| ==> d.at[i][i] == v[i]
  {
    Matrix(|v|, |v|,
      seq(|v|, i requires 0 <= i < |v| =>
        seq(|v|, j requires 0 <= j < |v| => if i == j then v[i] else 0.0)))
  }

  /**
   * makeDiagonal: a fresh n x n matrix (all zeros) whose entry (i, i) is set to vector(i, 0),
   * where n is the row count of the input; an input without exactly one column is refused.
   * The input is a value and cannot be modified.
   */
  method MakeDiagonal(vector: Matrix) returns (r: Result<Matrix, Error>)
    requires WellFormed(vector)
    ensures r.Success? <==> vector.cols == 1
    ensures r.Failure? ==> r.error == NotColumnVector
    ensures r.Success? ==> Shaped(r.value, vector.rows, vector.rows) && IsDiagonal(r.value)
    ensures r.Success? ==> forall i {:trigger r.value.at[i][i]} :: 0 <= i < vector.rows ==> r.value.at[i][i] == vector.at[i][0]
    ensures r.Success? ==> r.value == Diagonal(Column(vector, 0))
  {
    if vector.cols == 1 {
      var n := vector.rows;
      var diag := new real[n, n]((_, _) => 0.0);
      for i := 0 to n
        invariant forall a, b :: 0 <= a < n && 0 <= b < n ==>
          diag[a, b] == if a == b && a < i then vector.at[a][0] else 0.0
      {
        for j := 0 to n
          invariant forall a, b :: 0 <= a < n && 0 <= b < n ==>
            diag[a, b] == if a == b && (a < i || (a == i && b < j)) then vector.at[a][0] else 0.0
        {
          if i == j {
            diag[i, j] := vector.at[i][0];
          }
        }
      }
      var m := Matrix(n, n,
        seq(n, a requires 0 <= a < n reads diag =>
          seq(n, b requires 0 <= b < n reads diag => diag[a, b])));
      SameEntries(m, Diagonal(Column(vector, 0)));
      r := Success(m);
    } else {
      r := Failure(NotColumnVector);
    }
  }

  /** The entry-wise power of m: entry (i, j) is pow(m(i, j), power). */
  function PowEntries(m: Matrix, pow: (real, real) -> real, power: real): (r: Matrix)
    requires WellFormed(m)
    ensures Shaped(r, m.rows, m.cols)
    ensures forall i, j {:trigger r.at[i][j]} :: 0 <= i < m.rows && 0 <= j < m.cols ==> r.at[i][j] == pow(m.at[i][j], power)
  {
    Matrix(m.rows, m.cols,
      seq(m.rows, i requires 0 <= i < m.rows =>
        seq(m.cols, j requires 0 <= j < m.cols => pow(m.at[i][j], power))))
  }

  /**
   * powJAMAMatrix: fills a fresh matrix of the same shape, entry by entry, with the power of
   * the corresponding entry of m. Processing's pow is the parameter `pow`.
   */
  method PowMatrix(m: Matrix, pow: (real, real) -> real, power: real) returns (r: Matrix)
    requires WellFormed(m)
    ensures Shaped(r, m.rows, m.cols)
    ensures forall i, j {:trigger r.at[i][j]} :: 0 <= i < m.rows && 0 <= j < m.cols ==> r.at[i][j] == pow(m.at[i][j], power)
    ensures r == PowEntries(m, pow, power)
  {
    var output := new real[m.rows, m.cols]((_, _) => 0.0);
    for i := 0 to m.rows
      invariant forall a, b :: 0 <= a < i && 0 <= b < m.cols ==> output[a, b] == pow(m.at[a][b], power)
    {
      for j := 0 to m.cols
        invariant forall a, b :: 0 <= a < i && 0 <= b < m.cols ==> output[a, b] == pow(m.at[a][b], power)
        invariant forall b :: 0 <= b < j ==> output[i, b] == pow(m.at[i][b], power)
      {
        output[i, j] := pow(m.at[i][j], power);
      }
    }
    r := Matrix(m.rows, m.cols,
      seq(m.rows, a requires 0 <= a < m.rows reads output =>
        seq(m.cols, b requires 0 <= b < m.cols reads output => output[a, b])));
    SameEntries(r, PowEntries(m, pow, power));
  }

  /** A power that maps zero to zero keeps a diagonal matrix diagonal, with the powers of
      its diagonal entries on the diagonal. */
  lemma PowOfDiagonal(d: Matrix, pow: (real, real) -> real, power: real)
    requires IsDiagonal(d) && pow(0.0, power) == 0.0
    ensures IsDiagonal(PowEntries(d, pow, power))
    ensures forall i {:trigger PowEntries(d, pow, power).at[i][i]} :: 0 <= i < d.rows ==> PowEntries(d, pow, power).at[i][i] == pow(d.at[i][i], power)
  {
  }
}
