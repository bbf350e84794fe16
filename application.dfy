/**
 * The parts of ForceDensityAPI.java that compute rather than draw: the fixed corners of the
 * grid, the two loops that add its branches, the loop that fills the boundary positions, the
 * load updates of the two sliders, the loop that puts a solved state back in original node
 * order, and setup, which strings the first of these together for the 6 x 6 grid.
 * Nodes are numbered row by row: node (row j, column i) of an nx-wide grid is j * nx + i.
 */
module Application {
  import opened Wrappers
  import opened Exceptions
  import opened Partition
  import opened Topology
  import opened Matrices
  import opened Solver

  /** numNodesX and numNodesY: the nodes along each side of the grid. */
  const NumNodesX: nat := 6
  const NumNodesY: nat := 6

  /** lngth: the distance between neighbouring nodes of the flat grid. */
  const Spacing: int := 100

  /** Node (row j, column i) of a grid with rows `stride` indices apart. */
  function GridNode(stride: int, j: int, i: int): int {
    j * stride + i
  }

  /** With 0 <= i < n, the node index j * n + i determines both j and i. */
  lemma GridNodeInjective(n: int, j: int, i: int, j': int, i': int)
    requires 0 <= i < n && 0 <= i' < n
    requires GridNode(n, j, i) == GridNode(n, j', i')
    ensures j == j' && i == i'
  {
    var d := j - j';
    assert d * n == i' - i;
    assert d >= 1 ==> d * n >= n;
    assert d <= -1 ==> d * n <= -n;
  }

  /** A node of row j < ny and column i < nx of an nx-wide grid lies in [0, nx * ny). */
  lemma GridNodeWithin(nx: int, ny: int, j: int, i: int)
    requires 0 <= j < ny && 0 <= i < nx
    ensures 0 <= GridNode(nx, j, i) < nx * ny
  {
    MulMonotone(0, j, nx);
    MulMonotone(j + 1, ny, nx);
    assert (j + 1) * nx == j * nx + nx;
  }


  // --- Fixed corners ----------------------------------------------------------------------

  /** fixedN: the four corners of an nx x ny grid, pinned. */
  function Corners(nx: int, ny: int): seq<int> {
    [0, nx - 1, nx * (ny - 1), nx * ny - 1]
  }

  /** For a grid of at least 2 x 2 nodes the corners are distinct node indices in ascending
      order, as the binary search of the graph constructor demands. */
  lemma CornersValid(nx: int, ny: int)
    requires nx >= 2 && ny >= 2
    ensures Sorted(Corners(nx, ny)) && ValidFixed(nx * ny, Corners(nx, ny))
  {
    assert nx * (ny - 1) == nx * ny - nx;
    assert nx * (ny - 2) >= 0;
    assert nx * (ny - 1) >= nx;
  }

  /** A grid one node wide has coinciding corners, which the graph constructor refuses. */
  lemma NarrowCornersRepeat(ny: int)
    requires ny >= 1
    ensures !ValidFixed(1 * ny, Corners(1, ny))
  {
    assert Corners(1, ny)[0] == Corners(1, ny)[1];
  }

  // --- Grid branches ----------------------------------------------------------------------

  /** The trip count of `for (k = 0; k < n - 1; k++)`. */
  function Span(n: int): nat {
    if n >= 1 then n - 1 else 0
  }

  /** Row j of the horizontal loop, rows `stride` indices apart: branch i joins column i to
      column i + 1. */
  function HorizontalRow(j: int, nx: int, stride: int): seq<Branch> {
    seq(Span(nx), i => Branch(GridNode(stride, j, i), GridNode(stride, j, i + 1)))
  }

  /** Rows 0 .. rows - 1 of the horizontal loop, in loop order. */
  function HorizontalRows(nx: int, stride: int, rows: nat): seq<Branch> {
    if rows == 0 then [] else HorizontalRows(nx, stride, rows - 1) + HorizontalRow(rows - 1, nx, stride)
  }

  /** Column i of the vertical loop: branch j joins row j to row j + 1. */
  function VerticalColumn(i: int, nx: int, ny: int): seq<Branch> {
    seq(Span(ny), j => Branch(GridNode(nx, j, i), GridNode(nx, j + 1, i)))
  }

  /** Columns 0 .. cols - 1 of the vertical loop, in loop order. */
  function VerticalColumns(nx: int, ny: int, cols: nat): seq<Branch> {
    if cols == 0 then [] else VerticalColumns(nx, ny, cols - 1) + VerticalColumn(cols - 1, nx, ny)
  }

  /** The branches setup adds, in order. The horizontal loop puts its rows numNodesY indices
      apart (`y * numNodesY + x`), the vertical loop numNodesX apart. */
  function GridBranches(nx: nat, ny: nat): seq<Branch> {
    HorizontalRows(nx, ny, ny) + VerticalColumns(nx, ny, nx)
  }

  /** The grid of the row-by-row numbering: both loops put rows numNodesX indices apart. */
  function IntendedGrid(nx: nat, ny: nat): seq<Branch> {
    HorizontalRows(nx, nx, ny) + VerticalColumns(nx, ny, nx)
  }

  lemma {:induction false} HorizontalRowsSize(nx: int, stride: int, rows: nat)
    ensures |HorizontalRows(nx, stride, rows)| == rows * Span(nx)
  {
    if rows > 0 {
      HorizontalRowsSize(nx, stride, rows - 1);
      assert (rows - 1) * Span(nx) + Span(nx) == rows * Span(nx);
    }
  }

  lemma {:induction false} VerticalColumnsSize(nx: int, ny: int, cols: nat)
    ensures |VerticalColumns(nx, ny, cols)| == cols * Span(ny)
  {
    if cols > 0 {
      VerticalColumnsSize(nx, ny, cols - 1);
      assert (cols - 1) * Span(ny) + Span(ny) == cols * Span(ny);
    }
  }

  /** ny rows of nx - 1 horizontal branches, then nx columns of ny - 1 vertical ones: 60 for
      the 6 x 6 grid of the application. */
  lemma GridSize(nx: nat, ny: nat)
    ensures |GridBranches(nx, ny)| == ny * Span(nx) + nx * Span(ny)
    ensures |IntendedGrid(nx, ny)| == |GridBranches(nx, ny)|
    ensures |GridBranches(NumNodesX, NumNodesY)| == 60
  {
    HorizontalRowsSize(nx, ny, ny);
    HorizontalRowsSize(nx, nx, ny);
    VerticalColumnsSize(nx, ny, nx);
    HorizontalRowsSize(NumNodesX, NumNodesY, NumNodesY);
    VerticalColumnsSize(NumNodesX, NumNodesY, NumNodesX);
  }

  /** Rows 0 .. rows - 1 of the intended horizontal loop join horizontal neighbours of the
      grid, all inside [0, nx * ny) while rows <= ny. */
  lemma {:induction false} IntendedRowsWithin(nx: nat, ny: nat, rows: nat)
    requires rows <= ny
    ensures forall b :: b in HorizontalRows(nx, nx, rows) ==> BranchWithin(b, nx * ny)
  {
    if rows > 0 {
      IntendedRowsWithin(nx, ny, rows - 1);
      var row := HorizontalRow(rows - 1, nx, nx);
      forall i | 0 <= i < |row|
        ensures BranchWithin(row[i], nx * ny)
      {
        GridNodeWithin(nx, ny, rows - 1, i);
        GridNodeWithin(nx, ny, rows - 1, i + 1);
      }
    }
  }

  /** Columns 0 .. cols - 1 of the vertical loop join vertical neighbours, all inside
      [0, nx * ny) while cols <= nx. */
  lemma {:induction false} ColumnsWithin(nx: nat, ny: nat, cols: nat)
    requires cols <= nx
    ensures forall b :: b in VerticalColumns(nx, ny, cols) ==> BranchWithin(b, nx * ny)
  {
    if cols > 0 {
      ColumnsWithin(nx, ny, cols - 1);
      var column := VerticalColumn(cols - 1, nx, ny);
      forall j | 0 <= j < |column|
        ensures BranchWithin(column[j], nx * ny)
      {
        GridNodeWithin(nx, ny, j, cols - 1);
        GridNodeWithin(nx, ny, j + 1, cols - 1);
      }
    }
  }

  /** Every branch of the intended grid joins two nodes of the grid. */
  lemma IntendedGridWithin(nx: nat, ny: nat)
    ensures forall k :: 0 <= k < |IntendedGrid(nx, ny)| ==> BranchWithin(IntendedGrid(nx, ny)[k], nx * ny)
  {
    IntendedRowsWithin(nx, ny, ny);
    ColumnsWithin(nx, ny, nx);
    var g := IntendedGrid(nx, ny);
    forall k | 0 <= k < |g|
      ensures BranchWithin(g[k], nx * ny)
    {
      assert g[k] in HorizontalRows(nx, nx, ny) || g[k] in VerticalColumns(nx, ny, nx);
    }
  }

  /** For a square grid the two strides coincide and setup adds the intended grid. */
  lemma SquareGridAsIntended(n: nat)
    ensures GridBranches(n, n) == IntendedGrid(n, n)
  {
  }

  /** With two columns and three rows the horizontal loop of setup asks for branch (6, 7), past
      the last node 5, while the intended third row is branch (4, 5). */
  lemma RowStrideOverruns()
    ensures GridBranches(2, 3)[2] == Branch(6, 7) && !BranchWithin(GridBranches(2, 3)[2], 2 * 3)
    ensures IntendedGrid(2, 3)[2] == Branch(4, 5) && BranchWithin(IntendedGrid(2, 3)[2], 2 * 3)
  {
    HorizontalRowsAt(2, 3, 3, 2, 0);
    HorizontalRowsAt(2, 2, 3, 2, 0);
  }

  /** Entry x of row y sits at y * (nx - 1) + x of the horizontal loop's sequence. */
  lemma {:induction false} HorizontalRowsAt(nx: int, stride: int, rows: nat, y: nat, x: nat)
    requires y < rows && x < Span(nx)
    ensures y * Span(nx) + x < |HorizontalRows(nx, stride, rows)|
    ensures HorizontalRows(nx, stride, rows)[y * Span(nx) + x] == Branch(GridNode(stride, y, x), GridNode(stride, y, x + 1))
  {
    HorizontalRowsSize(nx, stride, rows - 1);
    HorizontalRowsSize(nx, stride, rows);
    if y < rows - 1 {
      HorizontalRowsAt(nx, stride, rows - 1, y, x);
    } else {
      assert y * Span(nx) == |HorizontalRows(nx, stride, rows - 1)|;
    }
  }

  /** Entry y of column x sits at x * (ny - 1) + y of the vertical loop's sequence. */
  lemma {:induction false} VerticalColumnsAt(nx: int, ny: int, cols: nat, x: nat, y: nat)
    requires x < cols && y < Span(ny)
    ensures x * Span(ny) + y < |VerticalColumns(nx, ny, cols)|
    ensures VerticalColumns(nx, ny, cols)[x * Span(ny) + y] == Branch(GridNode(nx, y, x), GridNode(nx, y + 1, x))
  {
    VerticalColumnsSize(nx, ny, cols - 1);
    VerticalColumnsSize(nx, ny, cols);
    if x < cols - 1 {
      VerticalColumnsAt(nx, ny, cols - 1, x, y);
    } else {
      assert x * Span(ny) == |VerticalColumns(nx, ny, cols - 1)|;
    }
  }

  /** The number of branches `addBranch` accepts before the first one with an end outside
      [0, n), which throws; |bs| when there is none. */
  function FirstOutside(bs: seq<Branch>, n: int): (k: nat)
    ensures k <= |bs|
    ensures forall i :: 0 <= i < k ==> BranchWithin(bs[i], n)
    ensures k < |bs| ==> !BranchWithin(bs[k], n)
  {
    if bs == [] || !BranchWithin(bs[0], n) then 0 else 1 + FirstOutside(bs[1..], n)
  }

  /** The exception `addBranch(v, w)` throws when an end is outside [0, n): `validate(v)` runs
      first. */
  function OutsideError(b: Branch, n: int): Error {
    IndexOutOfBounds(if 0 <= b.from < n then b.to else b.from, n)
  }

  /** The graph holds its branches from before plus the first m of bs, and its matrices
      are those it had before. */
  ghost predicate Added(g: BranchNodeGraph, before: seq<Branch>, bs: seq<Branch>, m: nat,
                        c: Option<Matrix>, cn: Option<Matrix>, cf: Option<Matrix>)
    reads g
  {
    g.Valid() && m <= |bs| && g.adj == before + bs[..m] && g.c == c && g.cn == cn && g.cf == cf
  }

  /** The accepted branches of `bs` lie inside the graph; so when bs[m] was refused, or bs is
      exhausted, m is where FirstOutside stops. */
  lemma AcceptedSoFar(g: BranchNodeGraph, before: seq<Branch>, bs: seq<Branch>, m: nat)
    requires g.Valid() && m <= |bs| && g.adj == before + bs[..m]
    requires m < |bs| ==> !BranchWithin(bs[m], g.nodes)
    ensures FirstOutside(bs, g.nodes) == m
  {
    forall i | 0 <= i < m
      ensures BranchWithin(bs[i], g.nodes)
    {
      assert bs[i] == g.adj[|before| + i];
    }
  }

  /** One `addBranch` call of the grid loops: bs[m] is added, or it throws and FirstOutside
      stops at m. */
  method AddNext(g: BranchNodeGraph, ghost before: seq<Branch>, ghost bs: seq<Branch>, ghost m: nat, v: int, w: int,
                 ghost c: Option<Matrix>, ghost cn: Option<Matrix>, ghost cf: Option<Matrix>) returns (r: Outcome<Error>)
    requires Added(g, before, bs, m, c, cn, cf) && m < |bs| && bs[m] == Branch(v, w)
    modifies g
    ensures r.Pass? ==> Added(g, before, bs, m + 1, c, cn, cf)
    ensures r.Fail? ==> Added(g, before, bs, m, c, cn, cf) && FirstOutside(bs, g.nodes) == m
    ensures r.Fail? ==> r.error == OutsideError(bs[m], g.nodes)
  {
    r := g.AddBranch(v, w);
    if r.Fail? {
      AcceptedSoFar(g, before, bs, m);
    } else {
      assert bs[..m + 1] == bs[..m] + [bs[m]];
    }
  }

  /** The horizontal loop of setup: row y joins node y * numNodesY + x to the next one. */
  method AddRows(g: BranchNodeGraph, nx: nat, ny: nat, ghost before: seq<Branch>,
                 ghost c: Option<Matrix>, ghost cn: Option<Matrix>, ghost cf: Option<Matrix>) returns (r: Outcome<Error>, ghost m: nat)
    requires Added(g, before, GridBranches(nx, ny), 0, c, cn, cf)
    modifies g
    ensures Added(g, before, GridBranches(nx, ny), m, c, cn, cf)
    ensures r.Pass? ==> m == |HorizontalRows(nx, ny, ny)|
    ensures r.Fail? ==> m < |GridBranches(nx, ny)| && FirstOutside(GridBranches(nx, ny), g.nodes) == m
    ensures r.Fail? ==> r.error == OutsideError(GridBranches(nx, ny)[m], g.nodes)
  {
    ghost var bs := GridBranches(nx, ny);
    ghost var rows := HorizontalRows(nx, ny, ny);
    assert bs == rows + VerticalColumns(nx, ny, nx);
    HorizontalRowsSize(nx, ny, ny);
    m := 0;
    r := Pass;
    for y := 0 to ny
      invariant m == y * Span(nx) && Added(g, before, bs, m, c, cn, cf) && r.Pass?
    {
      for x := 0 to Span(nx)
        invariant m == y * Span(nx) + x && Added(g, before, bs, m, c, cn, cf) && r.Pass?
      {
        HorizontalRowsAt(nx, ny, ny, y, x);
        assert bs[m] == rows[m];
        r := AddNext(g, before, bs, m, y * ny + x, y * ny + x + 1, c, cn, cf);
        if r.Fail? {
          return;
        }
        m := m + 1;
      }
      assert m == (y + 1) * Span(nx) by {
        assert (y + 1) * Span(nx) == y * Span(nx) + Span(nx);
      }
    }
  }

  /** The vertical loop of setup: column x joins node y * numNodesX + x to the one a row
      below, after all horizontal branches. */
  method AddColumns(g: BranchNodeGraph, nx: nat, ny: nat, ghost before: seq<Branch>,
                    ghost c: Option<Matrix>, ghost cn: Option<Matrix>, ghost cf: Option<Matrix>) returns (r: Outcome<Error>, ghost m: nat)
    requires Added(g, before, GridBranches(nx, ny), |HorizontalRows(nx, ny, ny)|, c, cn, cf)
    modifies g
    ensures Added(g, before, GridBranches(nx, ny), m, c, cn, cf)
    ensures r.Pass? ==> m == |GridBranches(nx, ny)|
    ensures r.Fail? ==> m < |GridBranches(nx, ny)| && FirstOutside(GridBranches(nx, ny), g.nodes) == m
    ensures r.Fail? ==> r.error == OutsideError(GridBranches(nx, ny)[m], g.nodes)
  {
    ghost var bs := GridBranches(nx, ny);
    ghost var rows, columns := HorizontalRows(nx, ny, ny), VerticalColumns(nx, ny, nx);
    VerticalColumnsSize(nx, ny, nx);
    assert bs == rows + columns;
    m := |rows|;
    r := Pass;
    for x := 0 to nx
      invariant m == |rows| + x * Span(ny) && Added(g, before, bs, m, c, cn, cf) && r.Pass?
    {
      for y := 0 to Span(ny)
        invariant m == |rows| + x * Span(ny) + y && Added(g, before, bs, m, c, cn, cf) && r.Pass?
      {
        VerticalColumnsAt(nx, ny, nx, x, y);
        assert bs[m] == columns[x * Span(ny) + y];
        r := AddNext(g, before, bs, m, y * nx + x, (y + 1) * nx + x, c, cn, cf);
        if r.Fail? {
          return;
        }
        m := m + 1;
      }
      assert m == |rows| + (x + 1) * Span(ny) by {
        assert (x + 1) * Span(ny) == x * Span(ny) + Span(ny);
      }
    }
  }

  /**
   * The two loops of setup that add the grid's branches, horizontal rows first, then vertical
   * columns. The first branch with an end outside the graph throws and ends setup; every
   * branch before it has been added.
   */
  method AddGridBranches(g: BranchNodeGraph, nx: nat, ny: nat) returns (r: Outcome<Error>)
    requires g.Valid()
    modifies g
    ensures g.Valid()
    ensures g.adj == old(g.adj) + GridBranches(nx, ny)[..FirstOutside(GridBranches(nx, ny), g.nodes)]
    ensures r.Pass? <==> FirstOutside(GridBranches(nx, ny), g.nodes) == |GridBranches(nx, ny)|
    ensures r.Fail? ==> r.error == OutsideError(GridBranches(nx, ny)[FirstOutside(GridBranches(nx, ny), g.nodes)], g.nodes)
    ensures g.c == old(g.c) && g.cn == old(g.cn) && g.cf == old(g.cf)
  {
    ghost var before := g.adj;
    assert before + GridBranches(nx, ny)[..0] == before;
    ghost var m;
    r, m := AddRows(g, nx, ny, before, g.c, g.cn, g.cf);
    if r.Pass? {
      r, m := AddColumns(g, nx, ny, before, old(g.c), old(g.cn), old(g.cf));
      if r.Pass? {
        AcceptedSoFar(g, before, GridBranches(nx, ny), m);
      }
    }
  }

  // --- Boundary positions -----------------------------------------------------------------

  /** Row j and column i of a node are its index divided by, and its remainder modulo, the
      row width. */
  lemma NodeDivMod(n: nat, j: nat, i: nat)
    requires i < n
    ensures GridNode(n, j, i) / n == j && GridNode(n, j, i) % n == i
  {
    var k := GridNode(n, j, i);
    assert k == GridNode(n, k / n, k % n);
    GridNodeInjective(n, k / n, k % n, j, i);
  }

  /** The flat grid the application starts from, nx columns by ny rows: node (row j, column i)
      at (i * spacing, j * spacing, 0). */
  function FlatGrid(nx: nat, ny: nat, spacing: int): (seq<real>, seq<real>, seq<real>) {
    if nx == 0 then ([], [], [])
    else (seq(nx * ny, k => ((k % nx) * spacing) as real),
          seq(nx * ny, k => ((k / nx) * spacing) as real),
          seq(nx * ny, k => 0.0))
  }

  /** The flat grid has a position for each of the nx * ny nodes, and node (row j, column i)
      sits at (i * spacing, j * spacing, 0), for every grid shape. */
  lemma FlatGridPlaces(nx: nat, ny: nat, spacing: int)
    ensures |FlatGrid(nx, ny, spacing).0| == |FlatGrid(nx, ny, spacing).1| == |FlatGrid(nx, ny, spacing).2| == nx * ny
    ensures forall j, i {:trigger GridNode(nx, j, i)} :: 0 <= j < ny && 0 <= i < nx ==>
      && 0 <= GridNode(nx, j, i) < nx * ny
      && FlatGrid(nx, ny, spacing).0[GridNode(nx, j, i)] == (i * spacing) as real
      && FlatGrid(nx, ny, spacing).1[GridNode(nx, j, i)] == (j * spacing) as real
      && FlatGrid(nx, ny, spacing).2[GridNode(nx, j, i)] == 0.0
  {
    forall j, i | 0 <= j < ny && 0 <= i < nx
      ensures 0 <= GridNode(nx, j, i) < nx * ny
      ensures FlatGrid(nx, ny, spacing).0[GridNode(nx, j, i)] == (i * spacing) as real
      ensures FlatGrid(nx, ny, spacing).1[GridNode(nx, j, i)] == (j * spacing) as real
    {
      GridNodeWithin(nx, ny, j, i);
      NodeDivMod(nx, j, i);
    }
  }

  /** The boundary loop of setup runs j over numNodesX rows and i over numNodesY columns
      and writes node j * numNodesX + i; it stays inside the nx * ny arrays exactly when the
      grid is no wider than it is tall, or empty. */
  predicate FillFits(nx: nat, ny: nat) {
    ny == 0 || nx <= ny
  }

  /** A write of the boundary loop is in range when the grid fits, and in any case for the
      first ny rows. */
  lemma FillIndexWithin(nx: nat, ny: nat, j: nat, i: nat)
    requires j < nx && i < ny && (FillFits(nx, ny) || j < ny)
    ensures GridNode(nx, j, i) < nx * ny
  {
    if nx <= ny {
      assert j * nx <= j * ny by { MulMonotone(nx, ny, j); }
      assert (j + 1) * ny <= nx * ny by { MulMonotone(j + 1, nx, ny); }
      assert (j + 1) * ny == j * ny + ny;
    } else {
      assert (j + 1) * nx <= ny * nx by { MulMonotone(j + 1, ny, nx); }
      assert (j + 1) * nx == j * nx + nx;
    }
  }

  lemma MulMonotone(a: nat, b: nat, c: nat)
    requires a <= b
    ensures a * c <= b * c
  {
  }

  /**
   * The loop of setup that fills the position arrays before `setBoundaryConditions`: all
   * three arrays hold numNodesX * numNodesY zeros, and (j, i) for j < numNodesX, i <
   * numNodesY stores i * lngth, j * lngth and 0 at index j * numNodesX + i. A wide grid
   * runs past the end of the arrays at index numNodesX * numNodesY, which throws; a square
   * grid gets the flat grid.
   */
  method FillBoundary(nx: nat, ny: nat, spacing: int) returns (r: Result<(seq<real>, seq<real>, seq<real>), Error>)
    ensures r.Success? <==> FillFits(nx, ny)
    ensures r.Failure? ==> r.error == ArrayIndexOutOfBounds(nx * ny)
    ensures r.Success? ==> |r.value.0| == |r.value.1| == |r.value.2| == nx * ny
    ensures r.Success? && nx == ny ==> r.value == FlatGrid(nx, ny, spacing)
  {
    var v := nx * ny;
    var xs := new real[v](_ => 0.0);
    var ys := new real[v](_ => 0.0);
    var zs := new real[v](_ => 0.0);
    ghost var flat := FlatGrid(nx, ny, spacing);
    for j := 0 to nx
      invariant !FillFits(nx, ny) ==> j <= ny
      invariant nx == ny ==> forall k :: 0 <= k < j * nx && k < v ==> xs[k] == flat.0[k] && ys[k] == flat.1[k] && zs[k] == flat.2[k]
    {
      for i := 0 to ny
        invariant !FillFits(nx, ny) && j == ny ==> i == 0
        invariant nx == ny ==> forall k :: 0 <= k < j * nx + i && k < v ==> xs[k] == flat.0[k] && ys[k] == flat.1[k] && zs[k] == flat.2[k]
      {
        var k := j * nx + i;
        if k >= v {
          if FillFits(nx, ny) || j < ny {
            FillIndexWithin(nx, ny, j, i);
          }
          r := Failure(ArrayIndexOutOfBounds(k));
          return;
        }
        if nx == ny {
          NodeDivMod(nx, j, i);
        }
        xs[k] := (i * spacing) as real;
        ys[k] := (j * spacing) as real;
        zs[k] := 0.0;
      }
      assert (j + 1) * nx == j * nx + nx;
    }
    if nx == ny {
      FlatGridPlaces(nx, ny, spacing);
      assert xs[..] == flat.0 && ys[..] == flat.1 && zs[..] == flat.2;
    }
    r := Success((xs[..], ys[..], zs[..]));
  }

  /** With three columns and two rows the boundary loop reaches row 2, whose first node is
      index 6 of the six-entry arrays; the flat grid of that shape has all six positions. */
  lemma BoundaryLoopOverruns()
    ensures !FillFits(3, 2) && GridNode(3, 2, 0) == 3 * 2
    ensures |FlatGrid(3, 2, Spacing).0| == 3 * 2
  {
  }

  // --- Load sliders -----------------------------------------------------------------------

  /** The load with its z component replaced. */
  function WithZ(p: Vec3, value: real): (q: Vec3)
    ensures q.x == p.x && q.y == p.y && q.z == value
  {
    Vec3(p.x, p.y, value)
  }

  /** The load with its x and y components replaced. */
  function WithXY(p: Vec3, a: real, b: real): (q: Vec3)
    ensures q.x == a && q.y == b && q.z == p.z
  {
    Vec3(a, b, p.z)
  }

  /** The two sliders touch disjoint components: in either order they leave (a, b, value),
      whatever the load was. */
  lemma SlidersCommute(p: Vec3, value: real, a: real, b: real)
    ensures WithXY(WithZ(p, value), a, b) == WithZ(WithXY(p, a, b), value) == Vec3(a, b, value)
  {
  }

  /** The z slider: reads the current load and sets it again with the slider value as z. */
  method OnLoadZ(fdm: ForceDensityMethod, value: real)
    modifies fdm
    ensures fdm.load == WithZ(old(fdm.load), value)
    ensures fdm.x == old(fdm.x) && fdm.y == old(fdm.y) && fdm.z == old(fdm.z)
    ensures fdm.xp == old(fdm.xp) && fdm.yp == old(fdm.yp) && fdm.zp == old(fdm.zp)
    ensures fdm.state == old(fdm.state) && fdm.forces == old(fdm.forces) && fdm.sigmaFL == old(fdm.sigmaFL)
  {
    var current := fdm.GetLoad();
    fdm.SetLoad(Vec3(current.x, current.y, value));
  }

  /** The two-dimensional slider: its two values become x and y, z is kept. */
  method OnLoadXY(fdm: ForceDensityMethod, a: real, b: real)
    modifies fdm
    ensures fdm.load == WithXY(old(fdm.load), a, b)
    ensures fdm.x == old(fdm.x) && fdm.y == old(fdm.y) && fdm.z == old(fdm.z)
    ensures fdm.xp == old(fdm.xp) && fdm.yp == old(fdm.yp) && fdm.zp == old(fdm.zp)
    ensures fdm.state == old(fdm.state) && fdm.forces == old(fdm.forces) && fdm.sigmaFL == old(fdm.sigmaFL)
  {
    var current := fdm.GetLoad();
    fdm.SetLoad(Vec3(a, b, current.z));
  }

  // --- Reconstruction ---------------------------------------------------------------------

  /** Node i reads past the end of its list: the fixed list when i is fixed, the unknown list
      otherwise, each read at the count of earlier nodes of its kind. */
  ghost predicate Overrun<T>(i: int, fixed: seq<int>, us: seq<T>, fs: seq<T>) {
    if i in fixed then |Hits(i, fixed)| >= |fs| else |Missing(i, fixed)| >= |us|
  }

  /** The exception of that read: `get` at the list's own size. */
  function OverrunError<T>(i: int, fixed: seq<int>, us: seq<T>, fs: seq<T>): Error {
    if i in fixed then IndexOutOfBounds(|fs|, |fs|) else IndexOutOfBounds(|us|, |us|)
  }

  /**
   * The reconstruction loop of drawMeshGrid: for each node i < V, the next entry of the
   * fixed state when i is in fixedN (binary search), of the unknown state otherwise. Each
   * node gets the entry at the count of earlier nodes of its kind; a list that runs out
   * throws at the first node that needs one more entry than it has.
   */
  method Reconstruct<T>(v: nat, fixedN: seq<int>, unknownState: seq<T>, fixedState: seq<T>) returns (r: Result<seq<T>, Error>)
    requires Sorted(fixedN)
    ensures r.Success? <==> |Hits(v, fixedN)| <= |fixedState| && |Missing(v, fixedN)| <= |unknownState|
    ensures r.Failure? ==> exists i :: (0 <= i < v && Overrun(i, fixedN, unknownState, fixedState)
      && (forall j :: 0 <= j < i ==> !Overrun(j, fixedN, unknownState, fixedState))
      && r.error == OverrunError(i, fixedN, unknownState, fixedState))
    ensures r.Success? ==> |r.value| == v
    ensures r.Success? ==> forall j :: 0 <= j < v ==> Slot(r.value[j], j, fixedN, unknownState, fixedState)
    ensures ValidFixed(v, fixedN) && |unknownState| >= v - |fixedN| && |fixedState| >= |fixedN| ==>
      r == Success(Reassembled(v, fixedN, unknownState, fixedState))
  {
    var reconstructed: seq<T> := [];
    var cntFixed, cntUnknown := 0, 0;
    for i := 0 to v
      invariant cntFixed == |Hits(i, fixedN)| <= |fixedState|
      invariant cntUnknown == |Missing(i, fixedN)| <= |unknownState|
      invariant Rebuilt(reconstructed, i, fixedN, unknownState, fixedState)
    {
      CountStep(i, fixedN);
      var e: T;
      if i in fixedN {
        if cntFixed >= |fixedState| {
          r := Failure(IndexOutOfBounds(cntFixed, |fixedState|));
          OverrunFails(v, fixedN, unknownState, fixedState, i);
          FirstOverrun(reconstructed, i, fixedN, unknownState, fixedState);
          assert Overrun(i, fixedN, unknownState, fixedState);
          return;
        }
        e := fixedState[cntFixed];
        cntFixed := cntFixed + 1;
      } else {
        if cntUnknown >= |unknownState| {
          r := Failure(IndexOutOfBounds(cntUnknown, |unknownState|));
          OverrunFails(v, fixedN, unknownState, fixedState, i);
          FirstOverrun(reconstructed, i, fixedN, unknownState, fixedState);
          assert Overrun(i, fixedN, unknownState, fixedState);
          return;
        }
        e := unknownState[cntUnknown];
        cntUnknown := cntUnknown + 1;
      }
      RebuiltStep(reconstructed, i, fixedN, unknownState, fixedState, e);
      reconstructed := reconstructed + [e];
    }
    r := Success(reconstructed);
    if ValidFixed(v, fixedN) && |unknownState| >= v - |fixedN| && |fixedState| >= |fixedN| {
      ReconstructedIsReassembled(v, fixedN, unknownState, fixedState, reconstructed);
    }
  }

  /** Entry e is what reconstruction puts at node j. */
  ghost predicate Slot<T>(e: T, j: int, fixed: seq<int>, us: seq<T>, fs: seq<T>) {
    if j in fixed then |Hits(j, fixed)| < |fs| && e == fs[|Hits(j, fixed)|]
    else |Missing(j, fixed)| < |us| && e == us[|Missing(j, fixed)|]
  }

  /** rec holds the reconstruction of nodes 0 .. i - 1. */
  ghost predicate Rebuilt<T>(rec: seq<T>, i: int, fixed: seq<int>, us: seq<T>, fs: seq<T>) {
    |rec| == i && forall j :: 0 <= j < i ==> Slot(rec[j], j, fixed, us, fs)
  }

  /** Nodes already rebuilt did not overrun, so a node that does is the first. */
  lemma FirstOverrun<T>(rec: seq<T>, i: int, fixed: seq<int>, us: seq<T>, fs: seq<T>)
    requires Rebuilt(rec, i, fixed, us, fs)
    ensures forall j :: 0 <= j < i ==> !Overrun(j, fixed, us, fs)
  {
    forall j | 0 <= j < i
      ensures !Overrun(j, fixed, us, fs)
    {
      assert Slot(rec[j], j, fixed, us, fs);
    }
  }

  lemma RebuiltStep<T>(rec: seq<T>, i: int, fixed: seq<int>, us: seq<T>, fs: seq<T>, e: T)
    requires Rebuilt(rec, i, fixed, us, fs) && Slot(e, i, fixed, us, fs)
    ensures Rebuilt(rec + [e], i + 1, fixed, us, fs)
  {
    var next := rec + [e];
    forall j | 0 <= j < i + 1
      ensures Slot(next[j], j, fixed, us, fs)
    {
      if j < i {
        assert next[j] == rec[j];
      }
    }
  }

  /** A node that overruns its list rules out the sizes reconstruction needs. */
  lemma OverrunFails<T>(v: nat, fixed: seq<int>, us: seq<T>, fs: seq<T>, i: nat)
    requires i < v && Overrun(i, fixed, us, fs)
    ensures !(|Hits(v, fixed)| <= |fs| && |Missing(v, fixed)| <= |us|)
    ensures !(ValidFixed(v, fixed) && |us| >= v - |fixed| && |fs| >= |fixed|)
  {
    CountStep(i, fixed);
    CountMonotone(i + 1, v, fixed);
    if ValidFixed(v, fixed) {
      HitsSize(v, fixed);
    }
  }

  /** Entry by entry, the reconstruction loop builds the reassembly of the partition. */
  lemma ReconstructedIsReassembled<T>(v: nat, fixed: seq<int>, us: seq<T>, fs: seq<T>, rec: seq<T>)
    requires ValidFixed(v, fixed) && |us| >= v - |fixed| && |fs| >= |fixed| && |rec| == v
    requires Rebuilt(rec, v, fixed, us, fs)
    ensures rec == Reassembled(v, fixed, us, fs)
  {
    forall j | 0 <= j < v
      ensures rec[j] == Reassembled(v, fixed, us, fs)[j]
    {
      assert Slot(rec[j], j, fixed, us, fs);
      assert Reassembled(v, fixed, us, fs)[j] == Pick(v, fixed, us, fs, j);
    }
  }

  /** Fed the fixed state that `getStateFixed` returns after a solve, which lists the boundary
      position of fixedN[k] at k, reconstruction puts every fixed node back at its boundary
      position. */
  lemma ReconstructedFixedStay(v: nat, fixed: seq<int>, us: seq<Vec3>, fs: seq<Vec3>, rec: seq<Vec3>,
                               xs: seq<real>, ys: seq<real>, zs: seq<real>)
    requires ValidFixed(v, fixed) && |xs| == |ys| == |zs| == v && |fs| == |fixed|
    requires forall k :: 0 <= k < |fs| ==> fs[k] == Vec3(xs[fixed[k]], ys[fixed[k]], zs[fixed[k]])
    requires Rebuilt(rec, v, fixed, us, fs)
    ensures forall j :: 0 <= j < v && j in fixed ==> rec[j] == Vec3(xs[j], ys[j], zs[j])
  {
    forall j | 0 <= j < v && j in fixed
      ensures rec[j] == Vec3(xs[j], ys[j], zs[j])
    {
      var k :| 0 <= k < |fixed| && fixed[k] == j;
      RankOf(fixed, k);
      assert Slot(rec[j], j, fixed, us, fs);
    }
  }

  // --- Setup ------------------------------------------------------------------------------

  /** The graph part of setup for an n x n grid: the four corners fixed, the grid
      branches added and the matrices built. */
  method SetupGraph(n: nat) returns (g: BranchNodeGraph)
    requires n >= 2
    ensures fresh(g)
    ensures g.Ready() && g.nodes == n * n && g.fixedIdx == Corners(n, n)
    ensures g.adj == IntendedGrid(n, n) && |g.adj| == 2 * (n * (n - 1))
  {
    var fixedN := Corners(n, n);
    CornersValid(n, n);
    var created := BranchNodeGraph.Create(n * n, fixedN);
    g := created.value;
    SquareGridAsIntended(n);
    IntendedGridWithin(n, n);
    GridSize(n, n);
    assert Span(n) == n - 1;
    ghost var bs := GridBranches(n, n);
    assert FirstOutside(bs, g.nodes) == |bs|;
    var added := AddGridBranches(g, n, n);
    assert bs[..|bs|] == bs;
    g.Build();
  }

  /**
   * The computing part of setup: the graph, and a force density method over it whose
   * boundary conditions are the flat grid 100 apart, loaded by the default load.
   */
  method Setup() returns (g: BranchNodeGraph, fdm: ForceDensityMethod)
    ensures fresh(g) && fresh(fdm) && fdm.graph == g
    ensures g.Ready() && g.nodes == NumNodesX * NumNodesY && g.fixedIdx == Corners(NumNodesX, NumNodesY)
    ensures g.adj == IntendedGrid(NumNodesX, NumNodesY) && |g.adj| == 60
    ensures fdm.Valid() && fdm.load == DefaultLoad && fdm.state == []
    ensures fdm.x == None && fdm.y == None && fdm.z == None && fdm.forces == None && fdm.sigmaFL == None
    ensures var flat := FlatGrid(NumNodesX, NumNodesY, Spacing);
      fdm.xp == Some(flat.0) && fdm.yp == Some(flat.1) && fdm.zp == Some(flat.2)
  {
    g := SetupGraph(NumNodesX);
    GridSize(NumNodesX, NumNodesY);
    fdm := new ForceDensityMethod(g);
    var boundary := FillBoundary(NumNodesX, NumNodesY, Spacing);
    fdm.SetBoundaryConditions(boundary.value.0, boundary.value.1, boundary.value.2);
  }
}
