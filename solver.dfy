/**
 * ForceDensityMethod.java: the form-finding solver over a branch-node graph. With every force
 * density equal to one it sets up the reduced system Dn xn = -Df xf + p for each coordinate,
 * solves it, and derives the branch lengths, the branch forces F and the performance
 * measure F^T L (one entry per branch). Floating-point rounding and the float casts of the
 * source are not modelled; the linear solve and the power function are parameters.
 */
module Solver {
  import opened Wrappers
  import opened Exceptions
  import opened Matrices
  import opened Misc
  import opened Partition
  import opened Topology

  /** A point, or a load vector, in space. */
  datatype Vec3 = Vec3(x: real, y: real, z: real)

  /** The load the constructor installs: -1 along z. */
  const DefaultLoad := Vec3(0.0, 0.0, -1.0)

  /** The exponent evalFD hands to powJAMAMatrix: 1f/2f, a square root. */
  const Half := 0.5

  function Min(a: int, b: int): int {
    if a <= b then a else b
  }

  /**
   * `new Jama.Matrix(vals, n)` applied to a boundary array, restricted (for n > 0) to the
   * arrays with which evalFD can get past makeDiagonal(u): a null array is dereferenced and
   * throws; an array of exactly n entries becomes an n x 1 column; any other length is
   * refused. JamaPacked below is the constructor itself; PackedColumnAgrees and
   * PackedNoNodes compare the two.
   */
  function PackedColumn(vals: Option<seq<real>>, n: nat): (r: Result<Matrix, Error>)
    ensures r.Success? <==> vals.Some? && |vals.value| == n
    ensures vals.None? ==> r == Failure(NullReference)
    ensures vals.Some? && |vals.value| != n ==> r == Failure(IllegalArgument)
    ensures r.Success? ==> Shaped(r.value, n, 1)
    ensures r.Success? ==> forall i :: 0 <= i < n ==> r.value.at[i][0] == vals.value[i]
  {
    if vals.None? then Failure(NullReference)
    else if |vals.value| != n then Failure(IllegalArgument)
    else Success(OfColumn(vals.value))
  }

  /** The position of entry (i, j) of an m-row matrix stored column by column. */
  function Flat(i: nat, j: nat, m: nat): nat {
    i + j * m
  }

  /** Every entry of an m x k matrix stored column by column lies inside its m * k entries. */
  lemma FlatWithin(m: nat, k: nat)
    ensures forall i, j {:trigger Flat(i, j, m)} :: 0 <= i < m && 0 <= j < k ==> Flat(i, j, m) < m * k
  {
    forall i: nat, j: nat | i < m && j < k
      ensures Flat(i, j, m) < m * k
    {
      var t := k - (j + 1);
      assert k * m == (j + 1) * m + t * m;
    }
  }

  /** The m x k matrix read column by column from the m * k entries of v. */
  function ColumnMajor(v: seq<real>, m: nat, k: nat): (r: Matrix)
    requires m * k == |v|
    ensures Shaped(r, m, k)
    ensures forall i, j {:trigger r.at[i][j]} :: 0 <= i < m && 0 <= j < k ==>
      Flat(i, j, m) < |v| && r.at[i][j] == v[Flat(i, j, m)]
  {
    FlatWithin(m, k);
    Matrix(m, k, seq(m, i requires 0 <= i < m => seq(k, j requires 0 <= j < k => v[Flat(i, j, m)])))
  }

  /** A length is m times its quotient by m exactly when m divides it. */
  lemma WholeQuotient(len: nat, m: nat)
    requires m > 0
    ensures m * (len / m) == len <==> len % m == 0
  {
    assert len == m * (len / m) + len % m;
  }

  /**
   * Jama's `Matrix(double[] vals, int m)`: a null array is dereferenced; otherwise the column
   * count is vals.length / m (0 when m is 0), the length must be m times that count, and the
   * array is read column by column, entry (i, j) being vals[Flat(i, j, m)].
   */
  function JamaPacked(vals: Option<seq<real>>, m: nat): (r: Result<Matrix, Error>)
    ensures vals.None? ==> r == Failure(NullReference)
    ensures vals.Some? ==> (r.Success? <==> if m == 0 then vals.value == [] else |vals.value| % m == 0)
    ensures vals.Some? && r.Failure? ==> r.error == IllegalArgument
    ensures r.Success? ==> r.value == ColumnMajor(vals.value, m, if m == 0 then 0 else |vals.value| / m)
  {
    if vals.None? then Failure(NullReference)
    else
      var v := vals.value;
      var k := if m == 0 then 0 else |v| / m;
      assert m > 0 ==> (m * k == |v| <==> |v| % m == 0) by {
        if m > 0 {
          WholeQuotient(|v|, m);
        }
      }
      if m * k != |v| then Failure(IllegalArgument) else Success(ColumnMajor(v, m, k))
  }

  /** For at least one node, PackedColumn is Jama's constructor wherever Jama builds a single
      column or throws; the arrays Jama accepts but PackedColumn refuses give any other
      column count: none for the empty array, several for a longer multiple of N. */
  lemma PackedColumnAgrees(vals: Option<seq<real>>, m: nat)
    requires m > 0
    ensures JamaPacked(vals, m).Failure? ==> PackedColumn(vals, m) == JamaPacked(vals, m)
    ensures JamaPacked(vals, m).Success? && JamaPacked(vals, m).value.cols == 1 ==> PackedColumn(vals, m) == JamaPacked(vals, m)
    ensures PackedColumn(vals, m).Failure? && JamaPacked(vals, m).Success? ==>
      JamaPacked(vals, m).value.cols != 1 && (vals.value == [] <==> JamaPacked(vals, m).value.cols == 0)
  {
    var jp := JamaPacked(vals, m);
    if jp.Success? && jp.value.cols == 1 {
      var pc := PackedColumn(vals, m);
      assert |vals.value| == m;
      forall i, j | 0 <= i < m && 0 <= j < 1
        ensures pc.value.at[i][j] == jp.value.at[i][j]
      {
        assert jp.value.at[i][0] == vals.value[Flat(i, 0, m)];
      }
      SameEntries(pc.value, jp.value);
    }
  }

  /** For a graph without nodes, Jama turns the empty array into a 0 x 0 matrix, which has no
      column at all, while PackedColumn gives a 0 x 1 column. */
  lemma PackedNoNodes()
    ensures JamaPacked(Some([]), 0) == Success(Matrix(0, 0, []))
    ensures PackedColumn(Some([]), 0) == Success(Matrix(0, 1, []))
  {
  }

  /** A coordinate column with its rows put in [unknown; fixed] order, as evalFD does first. */
  function Reordered(v: Matrix, unknown: seq<int>, fixed: seq<int>): (r: Matrix)
    requires WellFormed(v) && Within(unknown, v.rows) && Within(fixed, v.rows)
    ensures Shaped(r, |unknown| + |fixed|, v.cols)
    ensures forall k, j {:trigger r.at[k][j]} :: 0 <= k < |unknown| && 0 <= j < v.cols ==> r.at[k][j] == v.at[unknown[k]][j]
    ensures forall k, j {:trigger r.at[k][j]} :: |unknown| <= k < |unknown| + |fixed| && 0 <= j < v.cols ==>
      r.at[k][j] == v.at[fixed[k - |unknown|]][j]
  {
    RowAppend(GetRows(v, unknown), GetRows(v, fixed))
  }

  /** Q: the diagonal matrix of unit force densities, one per branch. */
  function UnitDensities(b: nat): (q: Matrix)
    ensures IsDiagonal(q) && Shaped(q, b, b)
    ensures forall i :: 0 <= i < b ==> q.at[i][i] == 1.0
  {
    Diagonal(Column(Ones(b, 1), 0))
  }

  /** Dn = Cn^T Q Cn. */
  function ReducedStiffness(cn: Matrix, q: Matrix): (dn: Matrix)
    requires WellFormed(cn) && Shaped(q, cn.rows, cn.rows)
    ensures Shaped(dn, cn.cols, cn.cols)
  {
    Times(Times(Transpose(cn), q), cn)
  }

  /** Df = Cn^T Q Cf. */
  function Coupling(cn: Matrix, cf: Matrix, q: Matrix): (df: Matrix)
    requires WellFormed(cn) && WellFormed(cf) && cf.rows == cn.rows && Shaped(q, cn.rows, cn.rows)
    ensures Shaped(df, cn.cols, cf.cols)
  {
    Times(Times(Transpose(cn), q), cf)
  }

  /** The right-hand side -(Df xf) + p, with the load component p in every entry. */
  function LoadedRhs(df: Matrix, xf: Matrix, p: real): (r: Matrix)
    requires WellFormed(df) && WellFormed(xf) && df.cols == xf.rows
    ensures Shaped(r, df.rows, xf.cols)
    ensures forall i, j {:trigger r.at[i][j]} :: 0 <= i < df.rows && 0 <= j < xf.cols ==>
      r.at[i][j] == p - Times(df, xf).at[i][j]
  {
    Plus(Negate(Times(df, xf)), Scale(Ones(df.rows, xf.cols), p))
  }

  /** The terms Cn(k, i) * Cn(k, j), one per branch k. */
  function ColumnProducts(cn: Matrix, i: nat, j: nat): (s: seq<real>)
    requires WellFormed(cn) && i < cn.cols && j < cn.cols
    ensures |s| == cn.rows
    ensures forall k {:trigger s[k]} :: 0 <= k < cn.rows ==> s[k] == cn.at[k][i] * cn.at[k][j]
  {
    seq(cn.rows, k requires 0 <= k < cn.rows => cn.at[k][i] * cn.at[k][j])
  }

  /** Sum over branches k of Cn(k, i) * Cn(k, j): the inner product of two columns of Cn. */
  function ColumnDot(cn: Matrix, i: nat, j: nat): real
    requires WellFormed(cn) && i < cn.cols && j < cn.cols
  {
    Sum(ColumnProducts(cn, i, j))
  }

  /** If a holds Cn transposed, entry (i, j) of a Cn is the inner product of columns i and j of Cn. */
  lemma GramEntry(cn: Matrix, a: Matrix, i: nat, j: nat)
    requires WellFormed(cn) && Shaped(a, cn.cols, cn.rows) && i < cn.cols && j < cn.cols
    requires forall i, k {:trigger a.at[i][k]} :: 0 <= i < cn.cols && 0 <= k < cn.rows ==> a.at[i][k] == cn.at[k][i]
    ensures Times(a, cn).at[i][j] == ColumnDot(cn, i, j)
  {
    forall k | 0 <= k < cn.rows
      ensures Products(a, cn, i, j)[k] == ColumnProducts(cn, i, j)[k]
    {
      assert a.at[i][k] == cn.at[k][i];
    }
    assert Products(a, cn, i, j) == ColumnProducts(cn, i, j);
  }

  /**
   * With unit force densities, Dn(i, j) is the inner product of columns i and j of Cn, so
   * Dn is symmetric.
   */
  lemma ReducedStiffnessIsGram(cn: Matrix)
    requires WellFormed(cn)
    ensures var dn := ReducedStiffness(cn, UnitDensities(cn.rows));
      Shaped(dn, cn.cols, cn.cols) &&
      forall i, j :: 0 <= i < cn.cols && 0 <= j < cn.cols ==>
        dn.at[i][j] == ColumnDot(cn, i, j) && dn.at[i][j] == dn.at[j][i]
  {
    var q := UnitDensities(cn.rows);
    var a := Times(Transpose(cn), q);
    TimesDiagonal(Transpose(cn), q);
    assert forall i, k {:trigger a.at[i][k]} :: 0 <= i < cn.cols && 0 <= k < cn.rows ==> a.at[i][k] == cn.at[k][i];
    forall i, j | 0 <= i < cn.cols && 0 <= j < cn.cols
      ensures Times(a, cn).at[i][j] == ColumnDot(cn, i, j)
    {
      GramEntry(cn, a, i, j);
    }
    forall i, j | 0 <= i < cn.cols && 0 <= j < cn.cols
      ensures ColumnDot(cn, i, j) == ColumnDot(cn, j, i)
    {
      assert ColumnProducts(cn, i, j) == ColumnProducts(cn, j, i);
    }
  }

  /** Row |unknown| + k of the coordinate column v holds vals(fixed[k]), the boundary value of
      fixed node k, for every k: the fixed block of v is the boundary column in fixed order. */
  ghost predicate AtBoundary(n: nat, unknown: seq<int>, fixed: seq<int>, v: Matrix, vals: Option<seq<real>>)
    requires Within(fixed, n) && |unknown| + |fixed| == n
  {
    && Shaped(v, n, 1) && vals.Some? && |vals.value| == n
    && forall k {:trigger v.at[k][0]} :: |unknown| <= k < n ==> v.at[k][0] == vals.value[fixed[k - |unknown|]]
  }

  /** Rows lo .. rows-1 of the columns a and b agree. */
  ghost predicate SameRowsFrom(a: Matrix, b: Matrix, lo: nat)
    requires Shaped(a, a.rows, 1) && Shaped(b, a.rows, 1)
  {
    forall k :: lo <= k < a.rows ==> a.at[k][0] == b.at[k][0]
  }

  /** The unknown block (rows 0 .. nu-1) of the column v solves Dn vn = -Df vf + p, where vf
      is the fixed block (the remaining rows). */
  ghost predicate InEquilibrium(dn: Matrix, df: Matrix, v: Matrix, nu: nat, p: real)
    requires WellFormed(v) && nu <= v.rows && Shaped(dn, nu, nu) && Shaped(df, nu, v.rows - nu)
  {
    Times(dn, RowRange(v, 0, nu)) == LoadedRhs(df, RowRange(v, nu, v.rows), p)
  }

  /** The contract of Jama's LU solve, exact over the reals: any solution it returns solves
      the square system it was given. None stands for the singular-matrix exception. */
  ghost predicate SolvesExactly(solve: (Matrix, Matrix) -> Option<Matrix>) {
    forall a, b :: solve(a, b).Some? && WellFormed(a) && WellFormed(b) && a.rows == a.cols && b.rows == a.rows ==>
      Shaped(solve(a, b).value, a.cols, b.cols) && Times(a, solve(a, b).value) == b
  }

  /** The right-hand side -(Df vf) + p of one coordinate, vf being the fixed block of col. */
  function AxisRhs(df: Matrix, col: Matrix, nu: nat, p: real): (r: Matrix)
    requires Shaped(col, col.rows, 1) && nu <= col.rows && Shaped(df, df.rows, col.rows - nu)
    ensures Shaped(r, df.rows, 1)
  {
    LoadedRhs(df, RowRange(col, nu, col.rows), p)
  }

  /** v is a solution for the coordinate column col: a column of the same length with the same
      fixed block whose unknown block is in equilibrium. */
  ghost predicate AxisSolved(dn: Matrix, df: Matrix, col: Matrix, nu: nat, p: real, v: Matrix)
    requires Shaped(col, col.rows, 1) && nu <= col.rows
    requires Shaped(dn, nu, nu) && Shaped(df, nu, col.rows - nu)
  {
    Shaped(v, col.rows, 1) && SameRowsFrom(v, col, nu) && InEquilibrium(dn, df, v, nu, p)
  }

  /** The three solutions nx, ny and nz solve the x, y and z systems set up from ox, oy and oz. */
  ghost predicate AllSolved(dn: Matrix, df: Matrix, nu: nat, p: Vec3, ox: Matrix, oy: Matrix, oz: Matrix,
                            nx: Matrix, ny: Matrix, nz: Matrix)
    requires Shaped(ox, ox.rows, 1) && Shaped(oy, ox.rows, 1) && Shaped(oz, ox.rows, 1) && nu <= ox.rows
    requires Shaped(dn, nu, nu) && Shaped(df, nu, ox.rows - nu)
  {
    && AxisSolved(dn, df, ox, nu, p.x, nx)
    && AxisSolved(dn, df, oy, nu, p.y, ny)
    && AxisSolved(dn, df, oz, nu, p.z, nz)
  }

  /** At least one of the three solves throws: Dn is singular for it. */
  ghost predicate Singular(dn: Matrix, df: Matrix, xs: Matrix, ys: Matrix, zs: Matrix, nu: nat, p: Vec3,
                           solve: (Matrix, Matrix) -> Option<Matrix>)
    requires Shaped(xs, xs.rows, 1) && Shaped(ys, xs.rows, 1) && Shaped(zs, xs.rows, 1) && nu <= xs.rows
    requires Shaped(dn, nu, nu) && Shaped(df, nu, xs.rows - nu)
  {
    || solve(dn, AxisRhs(df, xs, nu, p.x)).None?
    || solve(dn, AxisRhs(df, ys, nu, p.y)).None?
    || solve(dn, AxisRhs(df, zs, nu, p.z)).None?
  }

  /**
   * One coordinate of evalFD's solve: the right-hand side -(Df vf) + p from the fixed block
   * vf of the arranged column, Dn.solve on it, and the solution stacked on top of vf again.
   * None when the solve throws.
   */
  method SolveAxis(dn: Matrix, df: Matrix, col: Matrix, nu: nat, p: real,
                   solve: (Matrix, Matrix) -> Option<Matrix>) returns (res: Option<Matrix>)
    requires Shaped(col, col.rows, 1) && nu <= col.rows
    requires Shaped(dn, nu, nu) && Shaped(df, nu, col.rows - nu)
    requires SolvesExactly(solve)
    ensures res.None? <==> solve(dn, AxisRhs(df, col, nu, p)).None?
    ensures res.Some? ==> AxisSolved(dn, df, col, nu, p, res.value)
  {
    var vf := RowRange(col, nu, col.rows);
    var rhs := Plus(Negate(Times(df, vf)), Scale(Ones(df.rows, vf.cols), p));
    var sol := solve(dn, rhs);
    if sol.None? {
      return None;
    }
    RowRangeOfAppend(sol.value, vf);
    res := Some(RowAppend(sol.value, vf));
    assert SameRowsFrom(res.value, col, nu);
  }

  /**
   * The solve part of evalFD on plain matrices, for b branches: Q = makeDiagonal(ones(b, 1)),
   * Dn = Cn^T Q Cn and Df = Cn^T Q Cf (Jama refuses the product when Cn does not have b rows),
   * then the x, y and z systems in turn, failing as soon as one solve throws.
   */
  method SolveAll(cn: Matrix, cf: Matrix, b: nat, xs: Matrix, ys: Matrix, zs: Matrix, p: Vec3,
                  solve: (Matrix, Matrix) -> Option<Matrix>) returns (r: Result<(Matrix, Matrix, Matrix), Error>)
    requires WellFormed(cn) && WellFormed(cf) && cf.rows == cn.rows
    requires Shaped(xs, cn.cols + cf.cols, 1) && Shaped(ys, xs.rows, 1) && Shaped(zs, xs.rows, 1)
    requires SolvesExactly(solve)
    ensures cn.rows != b ==> r == Failure(DimensionMismatch)
    ensures cn.rows == b ==>
      var q := UnitDensities(b);
      (r.Failure? <==> Singular(ReducedStiffness(cn, q), Coupling(cn, cf, q), xs, ys, zs, cn.cols, p, solve))
    ensures cn.rows == b && r.Failure? ==> r.error == SingularMatrix
    ensures r.Success? ==> cn.rows == b
    ensures r.Success? ==> var q := UnitDensities(b);
      AllSolved(ReducedStiffness(cn, q), Coupling(cn, cf, q), cn.cols, p, xs, ys, zs, r.value.0, r.value.1, r.value.2)
  {
    var qd := MakeDiagonal(Ones(b, 1));
    var q := qd.value;
    if cn.rows != q.rows {
      return Failure(DimensionMismatch);
    }
    var dn := Times(Times(Transpose(cn), q), cn);
    var df := Times(Times(Transpose(cn), q), cf);
    var nu := cn.cols;
    var sx := SolveAxis(dn, df, xs, nu, p.x, solve);
    if sx.None? {
      return Failure(SingularMatrix);
    }
    var sy := SolveAxis(dn, df, ys, nu, p.y, solve);
    if sy.None? {
      return Failure(SingularMatrix);
    }
    var sz := SolveAxis(dn, df, zs, nu, p.z, solve);
    if sz.None? {
      return Failure(SingularMatrix);
    }
    r := Success((sx.value, sy.value, sz.value));
  }

  function Square(r: real): real {
    r * r
  }

  /** u(i, 0)^2 + v(i, 0)^2 + w(i, 0)^2: the squared length of branch vector i. */
  function SquaredNorm(u: Matrix, v: Matrix, w: Matrix, i: nat): real
    requires Shaped(u, u.rows, 1) && Shaped(v, u.rows, 1) && Shaped(w, u.rows, 1) && i < u.rows
  {
    Square(u.at[i][0]) + Square(v.at[i][0]) + Square(w.at[i][0])
  }

  /** U U + V V + W W, with U, V, W the diagonal matrices of u, v, w. */
  function SquaredLengths(u: Matrix, v: Matrix, w: Matrix): (s: Matrix)
    requires Shaped(u, u.rows, 1) && Shaped(v, u.rows, 1) && Shaped(w, u.rows, 1)
    ensures Shaped(s, u.rows, u.rows)
  {
    var du := Diagonal(Column(u, 0));
    var dv := Diagonal(Column(v, 0));
    var dw := Diagonal(Column(w, 0));
    Plus(Plus(Times(du, du), Times(dv, dv)), Times(dw, dw))
  }

  /** L = pow(U U + V V + W W, 1/2). */
  function Lengths(u: Matrix, v: Matrix, w: Matrix, pow: (real, real) -> real): (l: Matrix)
    requires Shaped(u, u.rows, 1) && Shaped(v, u.rows, 1) && Shaped(w, u.rows, 1)
    ensures Shaped(l, u.rows, u.rows)
  {
    PowEntries(SquaredLengths(u, v, w), pow, Half)
  }

  /** U U, for U the diagonal matrix of the column u, is diagonal with u(i, 0)^2 at (i, i). */
  lemma SquareOfDiagonal(u: Matrix)
    requires Shaped(u, u.rows, 1)
    ensures var d := Diagonal(Column(u, 0));
      forall i, j {:trigger Times(d, d).at[i][j]} :: 0 <= i < u.rows && 0 <= j < u.rows ==>
        Times(d, d).at[i][j] == if i == j then Square(u.at[i][0]) else 0.0
  {
    var d := Diagonal(Column(u, 0));
    DiagonalTimes(d, d);
  }

  /** U U + V V + W W is diagonal, with the squared length of branch i as its entry (i, i). */
  lemma SquaredLengthsDiagonal(u: Matrix, v: Matrix, w: Matrix)
    requires Shaped(u, u.rows, 1) && Shaped(v, u.rows, 1) && Shaped(w, u.rows, 1)
    ensures var s := SquaredLengths(u, v, w);
      Shaped(s, u.rows, u.rows) &&
      forall i, j {:trigger s.at[i][j]} :: 0 <= i < u.rows && 0 <= j < u.rows ==>
        s.at[i][j] == if i == j then SquaredNorm(u, v, w, i) else 0.0
  {
    SquareOfDiagonal(u);
    SquareOfDiagonal(v);
    SquareOfDiagonal(w);
  }

  /** L is diagonal, with pow(squared length of branch i, 1/2) as its entry (i, i). */
  lemma LengthsDiagonal(u: Matrix, v: Matrix, w: Matrix, pow: (real, real) -> real)
    requires Shaped(u, u.rows, 1) && Shaped(v, u.rows, 1) && Shaped(w, u.rows, 1)
    requires pow(0.0, Half) == 0.0
    ensures IsDiagonal(Lengths(u, v, w, pow)) && Shaped(Lengths(u, v, w, pow), u.rows, u.rows)
    ensures forall i :: 0 <= i < u.rows ==> Lengths(u, v, w, pow).at[i][i] == pow(SquaredNorm(u, v, w, i), Half)
  {
    var s := SquaredLengths(u, v, w);
    SquaredLengthsDiagonal(u, v, w);
    PowOfDiagonal(s, pow, Half);
  }

  /** For a diagonal L, F = L q (q all ones) holds the diagonal of L, and entry j of
      F^T L is F(j) * L(j, j) = F(j)^2. */
  lemma ForcesOfDiagonal(l: Matrix, q: Matrix, f: Matrix, fl: Matrix)
    requires IsDiagonal(l) && q == Ones(l.rows, 1) && f == Times(l, q) && fl == Times(Transpose(f), l)
    ensures Shaped(f, l.rows, 1) && Shaped(fl, 1, l.rows)
    ensures forall i {:trigger f.at[i][0]} :: 0 <= i < l.rows ==> f.at[i][0] == l.at[i][i]
    ensures forall j {:trigger fl.at[0][j]} :: 0 <= j < l.rows ==> fl.at[0][j] == f.at[j][0] * f.at[j][0]
  {
    var n := l.rows;
    DiagonalTimes(l, q);
    forall i | 0 <= i < n
      ensures f.at[i][0] == l.at[i][i]
    {
      assert f.at[i][0] == l.at[i][i] * q.at[i][0];
    }
    TimesDiagonal(Transpose(f), l);
    forall j | 0 <= j < n
      ensures fl.at[0][j] == f.at[j][0] * f.at[j][0]
    {
      assert fl.at[0][j] == Transpose(f).at[0][j] * l.at[j][j];
    }
  }

  /**
   * The outcome of the measuring part of evalFD for the incidence matrix c and the coordinate
   * columns xs, ys, zs: the force F(i) of branch i is pow of the squared length of the branch
   * vector (C x, C y, C z)(i) to the 1/2, and entry j of the performance row is F(j)^2.
   */
  ghost predicate MeasuredBy(c: Matrix, xs: Matrix, ys: Matrix, zs: Matrix, pow: (real, real) -> real,
                             f: Matrix, fl: Matrix)
    requires WellFormed(c) && Shaped(xs, c.cols, 1) && Shaped(ys, c.cols, 1) && Shaped(zs, c.cols, 1)
  {
    && Shaped(f, c.rows, 1) && Shaped(fl, 1, c.rows)
    && (forall i {:trigger f.at[i][0]} :: 0 <= i < c.rows ==>
          f.at[i][0] == pow(SquaredNorm(Times(c, xs), Times(c, ys), Times(c, zs), i), Half))
    && (forall j {:trigger fl.at[0][j]} :: 0 <= j < c.rows ==> fl.at[0][j] == f.at[j][0] * f.at[j][0])
  }

  /**
   * The end of evalFD: the branch vectors u = C x, v = C y, w = C z, L = pow(U U + V V + W W,
   * 1/2) with U, V, W the diagonal matrices of u, v, w, the forces F = L q for q all ones, and
   * sigmaFL = F^T L.
   */
  method MeasureBranches(c: Matrix, xs: Matrix, ys: Matrix, zs: Matrix, pow: (real, real) -> real)
    returns (f: Matrix, fl: Matrix)
    requires WellFormed(c) && Shaped(xs, c.cols, 1) && Shaped(ys, c.cols, 1) && Shaped(zs, c.cols, 1)
    requires pow(0.0, Half) == 0.0
    ensures MeasuredBy(c, xs, ys, zs, pow, f, fl)
  {
    var q := Ones(c.rows, 1);
    var u, v, w := Times(c, xs), Times(c, ys), Times(c, zs);
    var ud := MakeDiagonal(u);
    var vd := MakeDiagonal(v);
    var wd := MakeDiagonal(w);
    var um, vm, wm := ud.value, vd.value, wd.value;
    var l := PowMatrix(Plus(Plus(Times(um, um), Times(vm, vm)), Times(wm, wm)), pow, Half);
    assert l == Lengths(u, v, w, pow);
    LengthsDiagonal(u, v, w, pow);
    f := Times(l, q);
    fl := Times(Transpose(f), l);
    ForcesOfDiagonal(l, q, f, fl);
  }

  /** Arranging a boundary column in [unknown; fixed] order puts the boundary value of fixed
      node k in row |unknown| + k. */
  lemma ArrangedAtBoundary(n: nat, unknown: seq<int>, fixed: seq<int>, vals: Option<seq<real>>)
    requires Within(unknown, n) && Within(fixed, n) && |unknown| + |fixed| == n
    requires PackedColumn(vals, n).Success?
    ensures AtBoundary(n, unknown, fixed, Reordered(PackedColumn(vals, n).value, unknown, fixed), vals)
  {
    var col := PackedColumn(vals, n).value;
    var a := Reordered(col, unknown, fixed);
    forall k | |unknown| <= k < n
      ensures a.at[k][0] == vals.value[fixed[k - |unknown|]]
    {
      assert a.at[k][0] == col.at[fixed[k - |unknown|]][0];
    }
  }

  /** A column that agrees with one at the boundary on the fixed rows is at the boundary too. */
  lemma BoundaryKept(n: nat, unknown: seq<int>, fixed: seq<int>, v: Matrix, w: Matrix, vals: Option<seq<real>>)
    requires Within(fixed, n) && |unknown| + |fixed| == n
    requires AtBoundary(n, unknown, fixed, v, vals) && Shaped(w, n, 1) && SameRowsFrom(w, v, |unknown|)
    ensures AtBoundary(n, unknown, fixed, w, vals)
  {
    forall k | |unknown| <= k < n
      ensures w.at[k][0] == vals.value[fixed[k - |unknown|]]
    {
      assert w.at[k][0] == v.at[k][0];
    }
  }

  /** The sum of the diagonal entries, m(0, 0) + m(1, 1) + ..., over the shorter side. */
  function DiagonalTerms(m: Matrix): (d: seq<real>)
    requires WellFormed(m)
    ensures |d| == Min(m.rows, m.cols)
    ensures forall i :: 0 <= i < |d| ==> d[i] == m.at[i][i]
  {
    seq(Min(m.rows, m.cols), i requires 0 <= i < Min(m.rows, m.cols) => m.at[i][i])
  }

  function Trace(m: Matrix): real
    requires WellFormed(m)
  {
    Sum(DiagonalTerms(m))
  }

  /** The sums of the rows of m. */
  function RowSums(m: Matrix): (s: seq<real>)
    requires WellFormed(m)
    ensures |s| == m.rows
    ensures forall i :: 0 <= i < m.rows ==> s[i] == Sum(m.at[i])
  {
    seq(m.rows, i requires 0 <= i < m.rows => Sum(m.at[i]))
  }

  /** The sum of all entries of m. */
  function EntrySum(m: Matrix): real
    requires WellFormed(m)
  {
    Sum(RowSums(m))
  }

  /** The performance measure is one row of F_j * L_j terms, one per branch. Its trace is the
      first branch's term alone, while the sum of its entries is the sum over all branches,
      which is never negative. */
  lemma SigmaFLSums(f: Matrix, fl: Matrix)
    requires Shaped(f, fl.cols, 1) && Shaped(fl, 1, fl.cols)
    requires forall j {:trigger fl.at[0][j]} :: 0 <= j < fl.cols ==> fl.at[0][j] == f.at[j][0] * f.at[j][0]
    ensures Trace(fl) == if fl.cols == 0 then 0.0 else f.at[0][0] * f.at[0][0]
    ensures EntrySum(fl) == Sum(fl.at[0]) && EntrySum(fl) >= 0.0
  {
    assert RowSums(fl) == [Sum(fl.at[0])];
    assert Sum([Sum(fl.at[0])]) == Sum(fl.at[0]) + Sum([]);
    forall j | 0 <= j < fl.cols
      ensures fl.at[0][j] >= 0.0
    {
      var e := f.at[j][0];
      assert e * e >= 0.0 by {
        if e < 0.0 {
          assert (-e) * (-e) > 0.0;
        }
      }
    }
    SumNonnegative(fl.at[0]);
    if fl.cols > 0 {
      assert DiagonalTerms(fl) == [fl.at[0][0]];
      assert Sum([fl.at[0][0]]) == fl.at[0][0] + Sum([]);
    } else {
      assert DiagonalTerms(fl) == [];
    }
  }

  /** A measure of two branches with one unit term each: the trace is 1, the total is 2. */
  lemma TraceMissesBranches()
    ensures Trace(Matrix(1, 2, [[1.0, 1.0]])) == 1.0
    ensures EntrySum(Matrix(1, 2, [[1.0, 1.0]])) == 2.0
  {
    var m := Matrix(1, 2, [[1.0, 1.0]]);
    assert DiagonalTerms(m) == [1.0];
    assert Sum([1.0]) == 1.0 + Sum([]);
    assert RowSums(m) == [Sum([1.0, 1.0])];
    assert Sum([1.0, 1.0]) == 1.0 + Sum([1.0]);
    assert Sum([Sum([1.0, 1.0])]) == Sum([1.0, 1.0]) + Sum([]);
  }

  /**
   * ForceDensityMethod. Before evalFD the coordinates, the forces and the performance measure
   * are null (None); the boundary arrays are null until setBoundaryConditions.
   */
  class ForceDensityMethod {
    const graph: BranchNodeGraph
    var load: Vec3
    var x: Option<Matrix>
    var y: Option<Matrix>
    var z: Option<Matrix>
    var state: seq<Vec3>
    var sigmaFL: Option<Matrix>
    var forces: Option<Matrix>
    var xp: Option<seq<real>>
    var yp: Option<seq<real>>
    var zp: Option<seq<real>>

    /** Every coordinate vector that exists is a column with one entry per node; the forces
        and the performance measure, once computed, are proper matrices. */
    ghost predicate Valid()
      reads this
    {
      && (x.Some? ==> Shaped(x.value, graph.nodes, 1))
      && (y.Some? ==> Shaped(y.value, graph.nodes, 1))
      && (z.Some? ==> Shaped(z.value, graph.nodes, 1))
      && (forces.Some? ==> WellFormed(forces.value))
      && (sigmaFL.Some? ==> WellFormed(sigmaFL.value))
    }

    predicate HasCoordinates()
      reads this
    {
      x.Some? && y.Some? && z.Some?
    }

    /** Row i of the three coordinate vectors as a point. */
    ghost function Point(i: int): Vec3
      reads this
      requires Valid() && HasCoordinates() && 0 <= i < graph.nodes
    {
      Vec3(x.value.at[i][0], y.value.at[i][0], z.value.at[i][0])
    }

    /** All three boundary arrays convert to columns of N entries. */
    ghost predicate BoundaryReady()
      reads this
    {
      && PackedColumn(xp, graph.nodes).Success?
      && PackedColumn(yp, graph.nodes).Success?
      && PackedColumn(zp, graph.nodes).Success?
    }

    /** The boundary column of v in [unknown; fixed] order. */
    ghost function Arranged(v: Option<seq<real>>): Matrix
      reads graph
      requires graph.Valid() && PackedColumn(v, graph.nodes).Success?
    {
      Reordered(PackedColumn(v, graph.nodes).value, graph.unknownIdx, graph.fixedIdx)
    }

    /** The fixed blocks of the coordinate vectors hold the prescribed boundary positions of
        the fixed nodes. */
    ghost predicate FixedAtBoundary()
      reads this, graph
      requires graph.Valid()
    {
      && HasCoordinates()
      && AtBoundary(graph.nodes, graph.unknownIdx, graph.fixedIdx, x.value, xp)
      && AtBoundary(graph.nodes, graph.unknownIdx, graph.fixedIdx, y.value, yp)
      && AtBoundary(graph.nodes, graph.unknownIdx, graph.fixedIdx, z.value, zp)
    }

    /** Dn for unit force densities. */
    ghost function Stiffness(): (dn: Matrix)
      reads graph
      requires graph.Ready()
      ensures Shaped(dn, |graph.unknownIdx|, |graph.unknownIdx|)
    {
      ReducedStiffness(graph.cn.value, UnitDensities(graph.branches))
    }

    /** Df for unit force densities. */
    ghost function CouplingMatrix(): (df: Matrix)
      reads graph
      requires graph.Ready()
      ensures Shaped(df, |graph.unknownIdx|, |graph.fixedIdx|)
    {
      Coupling(graph.cn.value, graph.cf.value, UnitDensities(graph.branches))
    }

    /** The unknown block of v solves Dn vn = -Df vf + p, vf being its fixed block. */
    ghost predicate Balanced(v: Matrix, p: real)
      reads graph
      requires graph.Ready() && Shaped(v, graph.nodes, 1)
    {
      InEquilibrium(Stiffness(), CouplingMatrix(), v, |graph.unknownIdx|, p)
    }

    /** F(i) is the length of branch i (pow of its squared length to the 1/2); sigmaFL is the
        row F^T L, whose entry j is F(j)^2. */
    ghost predicate Measured(pow: (real, real) -> real)
      reads this, graph
      requires Valid() && graph.Ready() && HasCoordinates()
    {
      && forces.Some? && sigmaFL.Some?
      && MeasuredBy(graph.c.value, x.value, y.value, z.value, pow, forces.value, sigmaFL.value)
    }

    /** The state a successful evalFD leaves: fixed blocks at the boundary, unknown blocks in
        equilibrium under the load, forces and performance measured. */
    ghost predicate Solved(pow: (real, real) -> real)
      reads this, graph
      requires Valid() && graph.Ready()
    {
      && FixedAtBoundary()
      && Balanced(x.value, load.x) && Balanced(y.value, load.y) && Balanced(z.value, load.z)
      && Measured(pow)
    }

    /** The coordinate vectors are the arranged boundary columns, as before the solve. */
    ghost predicate AtArranged()
      reads this, graph
      requires graph.Valid()
    {
      && BoundaryReady()
      && x == Some(Arranged(xp)) && y == Some(Arranged(yp)) && z == Some(Arranged(zp))
    }

    /** Some solve throws on the arranged boundary columns. */
    ghost predicate SingularAtBoundary(solve: (Matrix, Matrix) -> Option<Matrix>)
      reads this, graph
      requires graph.Ready() && BoundaryReady()
    {
      Singular(Stiffness(), CouplingMatrix(), Arranged(xp), Arranged(yp), Arranged(zp),
               |graph.unknownIdx|, load, solve)
    }

    /** The constructor: the load defaults to -1 along z; nothing is computed yet. */
    constructor (g: BranchNodeGraph)
      ensures graph == g && load == DefaultLoad && state == []
      ensures sigmaFL == None && forces == None
      ensures x == None && y == None && z == None && xp == None && yp == None && zp == None
      ensures Valid()
    {
      graph := g;
      load := DefaultLoad;
      state := [];
      sigmaFL, forces := None, None;
      x, y, z := None, None, None;
      xp, yp, zp := None, None, None;
    }

    /** setBoundaryConditions: stores the three boundary arrays, one position per node. */
    method SetBoundaryConditions(xs: seq<real>, ys: seq<real>, zs: seq<real>)
      modifies this
      ensures xp == Some(xs) && yp == Some(ys) && zp == Some(zs)
      ensures load == old(load) && x == old(x) && y == old(y) && z == old(z)
      ensures state == old(state) && forces == old(forces) && sigmaFL == old(sigmaFL)
    {
      xp, yp, zp := Some(xs), Some(ys), Some(zs);
    }

    /** setLoad: replaces the load applied to every unknown node. */
    method SetLoad(p: Vec3)
      modifies this
      ensures load == p
      ensures x == old(x) && y == old(y) && z == old(z) && xp == old(xp) && yp == old(yp) && zp == old(zp)
      ensures state == old(state) && forces == old(forces) && sigmaFL == old(sigmaFL)
    {
      load := p;
    }

    /** getLoad: the load last set, DefaultLoad if none was. */
    function GetLoad(): (p: Vec3)
      reads this
      ensures p == load
    {
      load
    }

    /**
     * evalFD. The boundary arrays are converted to columns one by one (x, then y, then z),
     * each stored as soon as it exists; the three columns are put in [unknown; fixed] order;
     * Q = makeDiagonal(ones(B, 1)); Dn = Cn^T Q Cn and Df = Cn^T Q Cf, which dereference Cn
     * (null before build) and need Cn to have B rows; each coordinate's system is solved in
     * turn (a singular Dn throws before the results are stored); then the branch vectors
     * u = C x, v = C y, w = C z, the lengths L, the forces F = L q and sigmaFL = F^T L.
     */
    method EvalFD(solve: (Matrix, Matrix) -> Option<Matrix>, pow: (real, real) -> real) returns (r: Outcome<Error>)
      requires Valid() && graph.Valid()
      requires SolvesExactly(solve) && pow(0.0, Half) == 0.0
      modifies this
      ensures Valid()
      ensures load == old(load) && state == old(state) && xp == old(xp) && yp == old(yp) && zp == old(zp)
      ensures var colX := PackedColumn(xp, graph.nodes);
        colX.Failure? ==> r == Fail(colX.error) && x == old(x) && y == old(y) && z == old(z)
      ensures var colX := PackedColumn(xp, graph.nodes); var colY := PackedColumn(yp, graph.nodes);
        colX.Success? && colY.Failure? ==> r == Fail(colY.error) && x == Some(colX.value) && y == old(y) && z == old(z)
      ensures var colX := PackedColumn(xp, graph.nodes); var colY := PackedColumn(yp, graph.nodes);
        var colZ := PackedColumn(zp, graph.nodes);
        colX.Success? && colY.Success? && colZ.Failure? ==>
          r == Fail(colZ.error) && x == Some(colX.value) && y == Some(colY.value) && z == old(z)
      ensures BoundaryReady() ==> SolveReport(r, solve) && FixedAtBoundary()
      ensures BoundaryReady() && r.Fail? ==> AtArranged()
      ensures r.Fail? ==> forces == old(forces) && sigmaFL == old(sigmaFL)
      ensures r.Pass? ==> BoundaryReady() && graph.Ready() && Solved(pow)
    {
      r := ConvertStage();
      if r.Pass? {
        r := FinishStage(solve, pow);
      }
    }

    /** The start of evalFD: the three boundary arrays converted to columns in turn, each
        stored as soon as it exists. */
    method ConvertStage() returns (r: Outcome<Error>)
      requires Valid()
      modifies this
      ensures Valid()
      ensures load == old(load) && state == old(state) && xp == old(xp) && yp == old(yp) && zp == old(zp)
      ensures forces == old(forces) && sigmaFL == old(sigmaFL)
      ensures var colX := PackedColumn(xp, graph.nodes);
        colX.Failure? ==> r == Fail(colX.error) && x == old(x) && y == old(y) && z == old(z)
      ensures var colX := PackedColumn(xp, graph.nodes); var colY := PackedColumn(yp, graph.nodes);
        colX.Success? && colY.Failure? ==> r == Fail(colY.error) && x == Some(colX.value) && y == old(y) && z == old(z)
      ensures var colX := PackedColumn(xp, graph.nodes); var colY := PackedColumn(yp, graph.nodes);
        var colZ := PackedColumn(zp, graph.nodes);
        colX.Success? && colY.Success? && colZ.Failure? ==>
          r == Fail(colZ.error) && x == Some(colX.value) && y == Some(colY.value) && z == old(z)
      ensures r.Pass? <==> BoundaryReady()
      ensures r.Pass? ==> x == Some(PackedColumn(xp, graph.nodes).value)
      ensures r.Pass? ==> y == Some(PackedColumn(yp, graph.nodes).value)
      ensures r.Pass? ==> z == Some(PackedColumn(zp, graph.nodes).value)
    {
      var n := graph.nodes;
      var colX := PackedColumn(xp, n);
      if colX.Failure? {
        r := Fail(colX.error);
      } else {
        x := Some(colX.value);
        var colY := PackedColumn(yp, n);
        if colY.Failure? {
          r := Fail(colY.error);
        } else {
          y := Some(colY.value);
          var colZ := PackedColumn(zp, n);
          if colZ.Failure? {
            r := Fail(colZ.error);
          } else {
            z := Some(colZ.value);
            r := Pass;
          }
        }
      }
    }

    /** Then evalFD puts the rows of the three columns in [unknown; fixed] order. */
    method ReorderStage()
      requires Valid() && graph.Valid() && BoundaryReady()
      requires x == Some(PackedColumn(xp, graph.nodes).value) && y == Some(PackedColumn(yp, graph.nodes).value)
      requires z == Some(PackedColumn(zp, graph.nodes).value)
      modifies this
      ensures Valid()
      ensures load == old(load) && state == old(state) && xp == old(xp) && yp == old(yp) && zp == old(zp)
      ensures forces == old(forces) && sigmaFL == old(sigmaFL)
      ensures AtArranged() && FixedAtBoundary()
    {
      var n, unknown, fixed := graph.N(), graph.GetUnknown(), graph.GetFixed();
      x := Some(Reordered(x.value, unknown, fixed));
      y := Some(Reordered(y.value, unknown, fixed));
      z := Some(Reordered(z.value, unknown, fixed));
      ArrangedAtBoundary(n, unknown, fixed, xp);
      ArrangedAtBoundary(n, unknown, fixed, yp);
      ArrangedAtBoundary(n, unknown, fixed, zp);
    }

    /**
     * The rest of evalFD once the three columns exist: they are arranged, solved, and, when
     * all three solves succeed, replaced by the solutions before the forces are measured.
     */
    method FinishStage(solve: (Matrix, Matrix) -> Option<Matrix>, pow: (real, real) -> real) returns (r: Outcome<Error>)
      requires Valid() && graph.Valid() && BoundaryReady() && SolvesExactly(solve) && pow(0.0, Half) == 0.0
      requires x == Some(PackedColumn(xp, graph.nodes).value) && y == Some(PackedColumn(yp, graph.nodes).value)
      requires z == Some(PackedColumn(zp, graph.nodes).value)
      modifies this
      ensures Valid() && FixedAtBoundary()
      ensures load == old(load) && state == old(state) && xp == old(xp) && yp == old(yp) && zp == old(zp)
      ensures SolveReport(r, solve)
      ensures r.Fail? ==> AtArranged() && forces == old(forces) && sigmaFL == old(sigmaFL)
      ensures r.Pass? ==> graph.Ready() && Solved(pow)
    {
      ReorderStage();
      var sol := Solutions(solve);
      if sol.Failure? {
        r := Fail(sol.error);
      } else {
        Complete(sol.value, pow);
        r := Pass;
      }
    }

    /** How the solve part of evalFD ends: a null Cn, a Cn whose row count is not B, or a
        singular system on the arranged boundary columns, each with its exception. */
    ghost predicate SolveReport(r: Outcome<Error>, solve: (Matrix, Matrix) -> Option<Matrix>)
      reads this, graph
      requires graph.Valid() && BoundaryReady()
    {
      && (graph.cn.None? ==> r == Fail(NullReference))
      && (graph.cn.Some? && graph.cn.value.rows != graph.branches ==> r == Fail(DimensionMismatch))
      && (graph.Ready() ==> (r.Fail? <==> SingularAtBoundary(solve)))
      && (graph.Ready() && r.Fail? ==> r == Fail(SingularMatrix))
    }

    /**
     * The middle of evalFD, on the arranged coordinate columns: Q, the null and dimension
     * checks on Cn, then the three solves. Nothing is stored: the solutions replace the columns
     * only once all three exist.
     */
    method Solutions(solve: (Matrix, Matrix) -> Option<Matrix>) returns (sol: Result<(Matrix, Matrix, Matrix), Error>)
      requires Valid() && graph.Valid() && AtArranged() && SolvesExactly(solve)
      ensures SolveReport(if sol.Success? then Pass else Fail(sol.error), solve)
      ensures sol.Success? ==> graph.Ready()
      ensures sol.Success? ==>
        AllSolved(Stiffness(), CouplingMatrix(), |graph.unknownIdx|, load, x.value, y.value, z.value,
                  sol.value.0, sol.value.1, sol.value.2)
    {
      var cnOpt, cfOpt := graph.Cn(), graph.Cf();
      if cnOpt.None? {
        sol := Failure(NullReference);
      } else {
        sol := SolveAll(cnOpt.value, cfOpt.value, graph.B(), x.value, y.value, z.value, load, solve);
      }
    }

    /** The end of evalFD: the solutions are stored, then the branch forces and the performance
        measure are computed from C and the solved coordinates. */
    method Complete(s: (Matrix, Matrix, Matrix), pow: (real, real) -> real)
      requires Valid() && graph.Ready() && FixedAtBoundary() && pow(0.0, Half) == 0.0
      requires AllSolved(Stiffness(), CouplingMatrix(), |graph.unknownIdx|, load, x.value, y.value, z.value, s.0, s.1, s.2)
      modifies this
      ensures Valid() && Solved(pow)
      ensures load == old(load) && state == old(state) && xp == old(xp) && yp == old(yp) && zp == old(zp)
    {
      var n, unknown, fixed := graph.nodes, graph.unknownIdx, graph.fixedIdx;
      BoundaryKept(n, unknown, fixed, x.value, s.0, xp);
      BoundaryKept(n, unknown, fixed, y.value, s.1, yp);
      BoundaryKept(n, unknown, fixed, z.value, s.2, zp);
      x, y, z := Some(s.0), Some(s.1), Some(s.2);
      var f, fl := MeasureBranches(graph.c.value, x.value, y.value, z.value, pow);
      forces := Some(f);
      sigmaFL := Some(fl);
    }

    /**
     * getState: clears the state list, then appends one point per node, in [unknown; fixed]
     * order. The first point dereferences all three coordinate vectors, which are null before
     * evalFD.
     */
    method GetState() returns (r: Result<seq<Vec3>, Error>)
      requires Valid()
      modifies this
      ensures Valid()
      ensures r.Success? <==> graph.nodes == 0 || HasCoordinates()
      ensures r.Failure? ==> r.error == NullReference && state == []
      ensures r.Success? ==> state == r.value && |r.value| == graph.nodes
      ensures r.Success? ==> forall i :: 0 <= i < |r.value| ==> r.value[i] == Point(i)
      ensures load == old(load) && x == old(x) && y == old(y) && z == old(z)
      ensures xp == old(xp) && yp == old(yp) && zp == old(zp)
      ensures forces == old(forces) && sigmaFL == old(sigmaFL)
    {
      state := [];
      for i := 0 to graph.nodes
        invariant load == old(load) && x == old(x) && y == old(y) && z == old(z)
        invariant xp == old(xp) && yp == old(yp) && zp == old(zp)
        invariant forces == old(forces) && sigmaFL == old(sigmaFL)
        invariant !HasCoordinates() ==> i == 0
        invariant |state| == i
        invariant forall k :: 0 <= k < i ==> state[k] == Point(k)
      {
        if !HasCoordinates() {
          return Failure(NullReference);
        }
        state := state + [Vec3(x.value.at[i][0], y.value.at[i][0], z.value.at[i][0])];
      }
      r := Success(state);
    }

    /** getStateUnknown: the first unknown() points, those of the unknown nodes. */
    method GetStateUnknown() returns (r: Result<seq<Vec3>, Error>)
      requires Valid() && graph.Valid()
      ensures r.Success? <==> graph.Unknown() == 0 || HasCoordinates()
      ensures r.Failure? ==> r.error == NullReference
      ensures r.Success? ==> |r.value| == graph.Unknown()
      ensures r.Success? ==> forall k :: 0 <= k < |r.value| ==> r.value[k] == Point(k)
    {
      var stateUnknown: seq<Vec3> := [];
      for i := 0 to graph.Unknown()
        invariant !HasCoordinates() ==> i == 0
        invariant |stateUnknown| == i
        invariant forall k :: 0 <= k < i ==> stateUnknown[k] == Point(k)
      {
        if !HasCoordinates() {
          return Failure(NullReference);
        }
        stateUnknown := stateUnknown + [Vec3(x.value.at[i][0], y.value.at[i][0], z.value.at[i][0])];
      }
      r := Success(stateUnknown);
    }

    /**
     * getStateFixed: the points at rows unknown() .. N-1, those of the fixed nodes. Once the
     * boundary conditions have been arranged, these are the prescribed boundary positions.
     */
    method GetStateFixed() returns (r: Result<seq<Vec3>, Error>)
      requires Valid() && graph.Valid()
      ensures r.Success? <==> graph.Fixed() == 0 || HasCoordinates()
      ensures r.Failure? ==> r.error == NullReference
      ensures r.Success? ==> |r.value| == graph.Fixed()
      ensures r.Success? ==> forall k :: 0 <= k < |r.value| ==> r.value[k] == Point(graph.Unknown() + k)
      ensures FixedAtBoundary() ==> r.Success? && forall k :: 0 <= k < |r.value| ==>
        r.value[k] == Vec3(xp.value[graph.fixedIdx[k]], yp.value[graph.fixedIdx[k]], zp.value[graph.fixedIdx[k]])
    {
      var stateFixed: seq<Vec3> := [];
      for i := 0 to graph.Fixed()
        invariant !HasCoordinates() ==> i == 0
        invariant |stateFixed| == i
        invariant forall k :: 0 <= k < i ==> stateFixed[k] == Point(graph.Unknown() + k)
      {
        if !HasCoordinates() {
          return Failure(NullReference);
        }
        var tmpInd := i + graph.Unknown();
        stateFixed := stateFixed + [Vec3(x.value.at[tmpInd][0], y.value.at[tmpInd][0], z.value.at[tmpInd][0])];
      }
      r := Success(stateFixed);
    }

    /**
     * getSigmaFL: adds up the entries of sigmaFL whose row and column index agree, 0 while
     * sigmaFL is null. See README, Findings: sigmaFL has one row, so this is its first entry.
     */
    method GetSigmaFL() returns (sum: real)
      requires Valid()
      ensures sigmaFL.None? ==> sum == 0.0
      ensures sigmaFL.Some? ==> sum == Trace(sigmaFL.value)
    {
      sum := 0.0;
      if sigmaFL.Some? {
        var m := sigmaFL.value;
        ghost var d := DiagonalTerms(m);
        for i := 0 to m.rows
          invariant sum == Sum(d[..Min(i, m.cols)])
        {
          for j := 0 to m.cols
            invariant sum == Sum(d[..Min(i, m.cols)]) + (if i < j then m.at[i][i] else 0.0)
          {
            if i == j {
              sum := sum + m.at[i][j];
            }
          }
          if i < m.cols {
            assert d[..i + 1] == d[..i] + [m.at[i][i]];
            SumSnoc(d[..i], m.at[i][i]);
          }
        }
        assert d[..Min(m.rows, m.cols)] == d;
      }
    }

    /** The sum of F * L the method's comment promises: every entry of the measure added up,
        one term per branch. */
    method GetSigmaFLTotal() returns (sum: real)
      requires Valid()
      ensures sigmaFL.None? ==> sum == 0.0
      ensures sigmaFL.Some? ==> sum == EntrySum(sigmaFL.value)
    {
      sum := 0.0;
      if sigmaFL.Some? {
        var m := sigmaFL.value;
        ghost var rs := RowSums(m);
        for i := 0 to m.rows
          invariant sum == Sum(rs[..i])
        {
          ghost var before := sum;
          for j := 0 to m.cols
            invariant sum == before + Sum(m.at[i][..j])
          {
            assert m.at[i][..j + 1] == m.at[i][..j] + [m.at[i][j]];
            SumSnoc(m.at[i][..j], m.at[i][j]);
            sum := sum + m.at[i][j];
          }
          assert m.at[i][..m.cols] == m.at[i];
          assert rs[..i + 1] == rs[..i] + [rs[i]];
          SumSnoc(rs[..i], rs[i]);
        }
        assert rs[..m.rows] == rs;
      }
    }
  }
}
