# Force Density Method — a Dafny model

ForceDensityAPI is a small Java form-finding application. A square grid of nodes, pinned at its
four corners, carries a load. The Force Density Method, with every branch's force density set to
one, finds the equilibrium shape of the net.

This project models four parts of that application:

- **BranchNodeGraph**: the topology. It holds the node count and the sorted fixed nodes. Its
  constructor computes the complementary unknown nodes. Branches are appended through a
  validating `addBranch`. `build()` forms the branch × node incidence matrix and its blocks
  C = [Cn | Cf].
- **ForceDensityMethod**: the solver. It stores the boundary positions and the load. Then
  `evalFD` does the following:
  - it puts the coordinates in [unknown; fixed] order;
  - it builds Dn = Cnᵀ Q Cn and Df = Cnᵀ Q Cf;
  - it solves Dn xn = −Df xf + p for each axis;
  - it computes the branch lengths L, the forces F = L q and the performance row σFL = Fᵀ L.

  The class also has the state getters, `getLoad`/`setLoad` and `getSigmaFL`.
- **Misc**: `makeDiagonal` and `powJAMAMatrix`.
- **the application**: the corner array, the two branch-adding loops, the flat boundary grid, the
  load sliders, and the reconstruction of the state in original node order.

The matrices are exact `real` matrices, a record of row count, column count and rows.

Two things become parameters: the linear solve `Dn.solve(B)`, as a solve function, and
Processing's `PApplet.pow`, as a power function. The solve function is assumed to return an exact solution
whenever it returns one at all (`SolvesExactly`). The power function only has to map 0 to 0.

Java exceptions become `Failure`/`Fail` values of `Exceptions.Error`, raised at the same points
and in the same order as the source raises them.

The modules follow the source files:

- `Topology`: BranchNodeGraph.java.
- `Solver`: ForceDensityMethod.java.
- `Misc`: Misc.java.
- `Application`: ForceDensityAPI.java.
- Supporting modules:
  - `Partition`: fixed and unknown index sequences and their rank counting;
  - `Matrices`: the Jama operations used;
  - `Wrappers` / `Exceptions`.

## Model

| member | source | states |
|---|---|---|
| Topology.UnknownNodes | source/BranchNodeGraph.java:61-72 | The unknown-node loop succeeds exactly when the fixed array is strictly ascending within [0, N). Its result is then the ascending complement of the fixed nodes. A fixed array longer than N gives NegativeArraySize(N − fixed). Any other invalid array overruns the unknown array, giving ArrayIndexOutOfBounds. |
| Topology.ScanUnknown | source/BranchNodeGraph.java:65-72 | The scan overflows the unknown array exactly when more than its length of nodes are missing from `fixed`. Otherwise it fills the array with the missing nodes in ascending order. |
| Topology.ScannedCount | source/BranchNodeGraph.java:65-72 | After scanning nodes 0..i-1 the scan has collected one node per missing node below i, and that count never exceeds the number of missing nodes below N. |
| Topology.BranchNodeGraph.Create | source/BranchNodeGraph.java:56-73 | A negative N throws IllegalNodeCount before anything else. Otherwise construction succeeds iff the fixed nodes are valid, with the two error cases of the loop. A new graph has no branches, no C/Cn/Cf, and index arrays that partition [0, N). |
| Topology.BranchNodeGraph.Init | source/BranchNodeGraph.java:56-73 | Establishes the object invariant with an empty branch list and null matrices. |
| Topology.BranchNodeGraph.Validate | source/BranchNodeGraph.java:49-53 | Passes iff 0 ≤ v < N. Otherwise fails with IndexOutOfBounds for that vertex. |
| Topology.BranchNodeGraph.AddBranch | source/BranchNodeGraph.java:76-87 | Succeeds iff both endpoints are nodes, and then appends exactly Branch(v, w) and increments B. On failure nothing changes, and the error names v if v is bad, else w. C, Cn and Cf are never touched. The invariant is kept. |
| Topology.BranchNodeGraph.Build | source/BranchNodeGraph.java:89-122 | Leaves the branches alone. Cn and Cf are the unknown-node and fixed-node columns of the raw incidence matrix of all current branches (+1 at `from`, −1 at `to`, `to` winning on a self-loop). C is their concatenation. The graph is then Ready. |
| Topology.BranchNodeGraph.N | source/BranchNodeGraph.java:128 | The node count equals the number of unknown plus the number of fixed nodes. |
| Topology.BranchNodeGraph.B | source/BranchNodeGraph.java:129 | The branch count equals the length of the branch list. |
| Topology.BranchNodeGraph.C | source/BranchNodeGraph.java:132 | Null before build. Afterwards, entry (i, k) is the incidence of branch i at node (unknown ++ fixed)[k]. |
| Topology.BranchNodeGraph.Cn | source/BranchNodeGraph.java:133 | Entry (i, k) is the incidence of branch i at unknown node k. |
| Topology.BranchNodeGraph.Cf | source/BranchNodeGraph.java:134 | Entry (i, k) is the incidence of branch i at fixed node k. |
| Topology.BranchNodeGraph.GetFixed | source/BranchNodeGraph.java:137 | The fixed nodes are strictly ascending within [0, N). |
| Topology.BranchNodeGraph.GetUnknown | source/BranchNodeGraph.java:138 | The unknown nodes are exactly the non-fixed nodes of [0, N), ascending. |
| Topology.BranchNodeGraph.Fixed | source/BranchNodeGraph.java:141 | The number of fixed nodes, at most N. |
| Topology.BranchNodeGraph.Unknown | source/BranchNodeGraph.java:142 | The number of unknown nodes is N minus the number of fixed nodes. |
| Topology.IncidenceRowSum | source/BranchNodeGraph.java:99-108 | A branch between two different nodes has a row with +1 and −1 at its ends, zeros elsewhere, and sum 0. |
| Topology.Incidence | source/BranchNodeGraph.java:91-108 | The B × N matrix `C_` that build fills before partitioning: row i holds branch i's entries at every node. |
| Topology.SelfLoopRow | source/BranchNodeGraph.java:104-105 | A self-loop's row holds only −1 at its node, because the second write wins. |
| Topology.Partitioned | source/BranchNodeGraph.java:113-120 | [Cn \| Cf] equals the raw matrix's columns picked in the order unknown ++ fixed. |
| Topology.PartitionedColumnOfNode | source/BranchNodeGraph.java:113-120 | Reading C back at each node's position gives the raw incidence matrix, so no information is lost. |
| Topology.BranchDifference | source/BranchNodeGraph.java:99-120 | C times a column in partitioned order gives, per branch, the value at its `from` minus the value at its `to`. |
| Topology.BuiltBlocks | source/BranchNodeGraph.java:113-120 | The cut-out blocks and their concatenation satisfy the entrywise description used by the invariant. |
| Partition.MissingSize | source/BranchNodeGraph.java:63-72 | For sorted `fixed`, at least N − \|fixed\| nodes are missing, and exactly that many iff `fixed` is valid. |
| Partition.RankOf | source/ForceDensityAPI.java:290-291 | A fixed node is preceded by exactly k fixed nodes, where k is its index. |
| Partition.LayoutIsPermutation | source/ForceDensityMethod.java:63-75 | unknown ++ fixed lists each node of [0, N) exactly once. |
| Partition.PositionInverse | source/ForceDensityMethod.java:63-75 | Every node has a position in the [unknown; fixed] layout that holds it. |
| Partition.ReassembleGathered | source/ForceDensityAPI.java:288-295 | Splitting a per-node sequence into its unknown and fixed parts and reassembling gives it back. |
| Partition.ReassembledAt | source/ForceDensityAPI.java:288-295 | Reassembled entry j is the layout entry at j's position. |
| Partition.Gather | source/ForceDensityMethod.java:65-70 | What `getrows` picks: entry k is the entry at index idx[k], one entry per index. |
| Partition.Reassembled | source/ForceDensityAPI.java:288-295 | The sequence of N entries in original node order, taking the next fixed-block entry at each fixed node and the next unknown-block entry at every other node. |
| Misc.Diagonal | source/Misc.java:22-35 | A square diagonal matrix whose diagonal is the given vector. |
| Misc.MakeDiagonal | source/Misc.java:22-35 | Succeeds iff the argument has one column, else NotColumnVector. The result is the n × n diagonal matrix of the column. |
| Misc.PowEntries | source/Misc.java:41-50 | Same shape, with each entry raised to `power`. |
| Misc.PowMatrix | source/Misc.java:41-50 | The loop produces PowEntries, entry by entry. |
| Misc.PowOfDiagonal | source/Misc.java:41-50 | Raising a diagonal matrix entrywise, with pow(0) = 0, keeps it diagonal. |
| Solver.PackedColumn | source/ForceDensityMethod.java:59-61 | A null array throws NullReference. An array of length other than N is refused. Otherwise the result is the N × 1 column of the array. |
| Solver.JamaPacked | source/ForceDensityMethod.java:59-61 | Jama's packed-array constructor: null throws; the length must be m times the column count (the empty array for m = 0); entry (i, j) is vals[i + j·m]. |
| Solver.PackedColumnAgrees | source/ForceDensityMethod.java:59-61 | For N > 0, PackedColumn equals Jama's constructor wherever Jama throws or builds one column; an array that only PackedColumn refuses gives Jama a column count other than one, and zero columns exactly when the array is empty. |
| Solver.PackedNoNodes | source/ForceDensityMethod.java:59-61 | For N = 0, Jama builds a 0 × 0 matrix from the empty array while PackedColumn builds a 0 × 1 column. |
| Solver.Reordered | source/ForceDensityMethod.java:66-75 | Row k is the unknown node k's row, then rows of the fixed nodes. |
| Solver.UnitDensities | source/ForceDensityMethod.java:79-80 | Q is the B × B diagonal of ones. |
| Solver.ReducedStiffness | source/ForceDensityMethod.java:82 | Dn = Cnᵀ Q Cn, a square matrix with one row and column per unknown node. |
| Solver.Coupling | source/ForceDensityMethod.java:83 | Df = Cnᵀ Q Cf, one row per unknown node and one column per fixed node. |
| Solver.ReducedStiffnessIsGram | source/ForceDensityMethod.java:82 | With unit densities, Dn(i, j) is the dot product of Cn's columns i and j, so Dn is symmetric. |
| Solver.GramEntry | source/ForceDensityMethod.java:82 | When the left factor holds Cn transposed, each entry of the product with Cn is the dot product of two columns of Cn. |
| Solver.SolveAxis | source/ForceDensityMethod.java:87-104 | Fails iff the solve fails on −Df vf + p. Otherwise the new column keeps the fixed block and its unknown block satisfies Dn vn = −Df vf + p. |
| Solver.LoadedRhs | source/ForceDensityMethod.java:87-100 | The right-hand side −(Df vf) + p: entry (i, j) is the load p minus entry (i, j) of Df vf. |
| Solver.AxisRhs | source/ForceDensityMethod.java:87-100 | The right-hand side of one coordinate, formed from the fixed block of its arranged column: one entry per unknown node. |
| Solver.SolveAll | source/ForceDensityMethod.java:79-104 | A Cn whose row count is not B fails with DimensionMismatch. Otherwise the result fails (SingularMatrix) iff a solve fails, and success solves all three axes. |
| Solver.SquaredLengths | source/ForceDensityMethod.java:117-121 | U·U + V·V + W·W for the diagonal matrices of u, v, w: a B × B matrix. |
| Solver.Lengths | source/ForceDensityMethod.java:121 | L, the entrywise power 1/2 of the squared lengths: a B × B matrix. |
| Solver.LengthsDiagonal | source/ForceDensityMethod.java:114-122 | L is diagonal, and L(i, i) = pow(u_i² + v_i² + w_i², 1/2). |
| Solver.SquaredLengthsDiagonal | source/ForceDensityMethod.java:117-121 | U·U + V·V + W·W is diagonal, and its i-th diagonal entry is u_i² + v_i² + w_i². |
| Solver.ForcesOfDiagonal | source/ForceDensityMethod.java:126-130 | For diagonal L, F(i) = L(i, i), and σFL(0, j) = F(j)². |
| Solver.MeasureBranches | source/ForceDensityMethod.java:114-130 | The force of each branch is its length. Each σFL entry is that force squared. |
| Solver.ArrangedAtBoundary | source/ForceDensityMethod.java:63-75 | After reordering, row \|unknown\| + k of a column holds fixed node k's boundary value. |
| Solver.BoundaryKept | source/ForceDensityMethod.java:108-110 | Concatenating the solved block above the old fixed block keeps the boundary values. |
| Solver.DiagonalTerms | source/ForceDensityMethod.java:182-189 | The diagonal entries, as many as the shorter dimension. |
| Solver.Trace | source/ForceDensityMethod.java:181-187 | The sum of the entries with row index equal to column index, which is what getSigmaFL's nested loop adds up. |
| Solver.RowSums | source/ForceDensityMethod.java:182-189 | One sum per row. |
| Solver.SigmaFLSums | source/ForceDensityMethod.java:178-192 | For the row σFL, the trace is the first branch's force squared alone. The sum of all entries is the total and is non-negative. |
| Solver.TraceMissesBranches | source/ForceDensityMethod.java:178-192 | The 1 × 2 row [1, 1] has trace 1 but entry sum 2. |
| Solver.ForceDensityMethod.constructor | source/ForceDensityMethod.java:41-47 | Stores the graph, the load (0, 0, −1) and an empty state. Everything else is null. |
| Solver.ForceDensityMethod.SetBoundaryConditions | source/ForceDensityMethod.java:50-54 | Stores the three arrays and changes nothing else. |
| Solver.ForceDensityMethod.SetLoad | source/ForceDensityMethod.java:135 | Replaces the load and changes nothing else. |
| Solver.ForceDensityMethod.GetLoad | source/ForceDensityMethod.java:175 | The current load. |
| Solver.ForceDensityMethod.EvalFD | source/ForceDensityMethod.java:57-132 | Conversion failures come in x, y, z order, each column stored as soon as it converts. Once all three convert: the fixed blocks hold the boundary values; null Cn gives NullReference; a Cn with other than B rows gives DimensionMismatch; a built graph fails (SingularMatrix) iff a solve fails, leaving the arranged columns. On success, each unknown block is in equilibrium under the load and the forces and σFL are measured. Load, state and boundary arrays are kept. |
| Solver.ForceDensityMethod.ConvertStage | source/ForceDensityMethod.java:59-61 | Passes iff all three arrays convert, storing each converted column in turn. |
| Solver.ForceDensityMethod.ReorderStage | source/ForceDensityMethod.java:63-75 | Replaces the columns by their [unknown; fixed] arrangement, whose fixed blocks hold the boundary values. |
| Solver.ForceDensityMethod.Solutions | source/ForceDensityMethod.java:79-104 | The null, dimension and singular cases of the solve, and the three solutions. |
| Solver.ForceDensityMethod.FinishStage | source/ForceDensityMethod.java:63-132 | From converted columns: solve report, boundary kept, and on success the solved state. |
| Solver.ForceDensityMethod.Complete | source/ForceDensityMethod.java:108-130 | Stores the solutions and measures the forces and σFL, reaching the solved state. |
| Solver.ForceDensityMethod.GetState | source/ForceDensityMethod.java:138-146 | Succeeds iff there is no node or the coordinates exist, else NullReference. The state becomes the N points, one per node row. |
| Solver.ForceDensityMethod.GetStateUnknown | source/ForceDensityMethod.java:149-157 | The first \|unknown\| points, with NullReference when the coordinates are missing and needed. |
| Solver.ForceDensityMethod.GetStateFixed | source/ForceDensityMethod.java:160-169 | The points after the unknown block, one per fixed node. After evalFD they are the fixed nodes' boundary positions. |
| Solver.ForceDensityMethod.GetSigmaFL | source/ForceDensityMethod.java:178-192 | 0 before evalFD, otherwise the trace of σFL, as written. |
| Solver.ForceDensityMethod.GetSigmaFLTotal | source/ForceDensityMethod.java:178-192 | 0 before evalFD, otherwise the sum of all σFL entries, as the method's documentation intends. |
| Application.GridNodeInjective | source/ForceDensityAPI.java:111-125 | Row-major numbering with stride n gives distinct nodes for distinct (row, column) with column < n. |
| Application.GridNodeWithin | source/ForceDensityAPI.java:118-125 | Row-major node numbers of an nx × ny grid lie in [0, nx·ny). |
| Application.CornersValid | source/ForceDensityAPI.java:102-106 | For grids of at least 2 × 2 nodes, the four corners are a valid sorted fixed array. |
| Application.NarrowCornersRepeat | source/ForceDensityAPI.java:102-106 | A grid one node wide repeats a corner, so the graph constructor fails. |
| Application.HorizontalRowsSize | source/ForceDensityAPI.java:111-115 | The horizontal loop adds rows · (nx − 1) branches. |
| Application.VerticalColumnsSize | source/ForceDensityAPI.java:118-125 | The vertical loop adds cols · (ny − 1) branches. |
| Application.HorizontalRowsAt | source/ForceDensityAPI.java:111-115 | Branch y·(nx − 1) + x of the horizontal loop joins (y, x) to (y, x + 1). |
| Application.VerticalColumnsAt | source/ForceDensityAPI.java:118-125 | Branch x·(ny − 1) + y of the vertical loop joins (y, x) to (y + 1, x). |
| Application.GridSize | source/ForceDensityAPI.java:111-125 | The loops add ny·(nx − 1) + nx·(ny − 1) branches, 60 for the 6 × 6 grid. |
| Application.IntendedRowsWithin | source/ForceDensityAPI.java:111-115 | With stride nx, every horizontal branch joins nodes of the grid. |
| Application.ColumnsWithin | source/ForceDensityAPI.java:118-125 | Every vertical branch joins nodes of the grid. |
| Application.IntendedGridWithin | source/ForceDensityAPI.java:111-125 | Every branch of the intended grid joins nodes of the grid. |
| Application.SquareGridAsIntended | source/ForceDensityAPI.java:111-115 | On a square grid the as-written stride gives the intended branches. |
| Application.RowStrideOverruns | source/ForceDensityAPI.java:111-115 | On 2 × 3 nodes the as-written loop adds branch (6, 7) outside the grid. The intended one is (4, 5). |
| Application.FirstOutside | source/ForceDensityAPI.java:111-125 | The first branch of a list that leaves the grid, with every earlier one inside. |
| Application.AcceptedSoFar | source/BranchNodeGraph.java:76-87 | If the list's first m branches were accepted and branch m is out of range, then m is the first outside branch. |
| Application.AddNext | source/ForceDensityAPI.java:113 | One addBranch call of a loop: appends the next branch, or fails at the first outside one with its error. |
| Application.AddRows | source/ForceDensityAPI.java:111-115 | The horizontal loop appends its branches until the first one that throws. |
| Application.AddColumns | source/ForceDensityAPI.java:118-125 | The vertical loop continues the appends until the first branch that throws. |
| Application.AddGridBranches | source/ForceDensityAPI.java:111-125 | Both loops append exactly the prefix of the grid branches before the first out-of-range one. They pass iff there is none, and otherwise fail with that branch's IndexOutOfBounds. The matrices are not touched. |
| Application.NodeDivMod | source/ForceDensityAPI.java:136-142 | Dividing node j·n + i by n gives row j, column i. |
| Application.FlatGridPlaces | source/ForceDensityAPI.java:136-142 | The flat grid puts node (j, i) at (i·spacing, j·spacing, 0). |
| Application.FillIndexWithin | source/ForceDensityAPI.java:136-142 | When the loop bounds fit, every written index is within the arrays. |
| Application.FillBoundary | source/ForceDensityAPI.java:132-142 | The fill loop completes iff nx ≤ ny (or ny = 0), and otherwise throws ArrayIndexOutOfBounds. Each array has nx·ny entries. On a square grid the arrays are the flat grid. |
| Application.BoundaryLoopOverruns | source/ForceDensityAPI.java:136-142 | On 3 × 2 nodes the loop writes index 6 into arrays of 6. |
| Application.WithZ | source/ForceDensityAPI.java:255-258 | Keeps x and y, replaces z. |
| Application.WithXY | source/ForceDensityAPI.java:260-263 | Keeps z, replaces x and y. |
| Application.SlidersCommute | source/ForceDensityAPI.java:255-263 | The two slider updates commute. Together they set the whole load. |
| Application.OnLoadZ | source/ForceDensityAPI.java:255-258 | The load's z becomes the slider value. Nothing else changes. |
| Application.OnLoadXY | source/ForceDensityAPI.java:260-263 | The load's x and y become the slider values. Nothing else changes. |
| Application.Reconstruct | source/ForceDensityAPI.java:285-295 | Succeeds iff neither counter overruns its list. Otherwise it throws at the first node that would. Node j takes the next fixed state if j is fixed, else the next unknown state. For valid fixed nodes this is Reassembled. |
| Application.RebuiltStep | source/ForceDensityAPI.java:288-295 | One loop step extends the reconstruction invariant. |
| Application.FirstOverrun | source/ForceDensityAPI.java:288-295 | Before the current node no counter overran. |
| Application.OverrunFails | source/ForceDensityAPI.java:288-295 | An overrun at any node means the lists are too short. |
| Application.ReconstructedIsReassembled | source/ForceDensityAPI.java:288-295 | The loop's result is the reassembly of the two state lists. |
| Application.ReconstructedFixedStay | source/ForceDensityAPI.java:288-295 | Fixed nodes are reconstructed at their boundary positions. |
| Application.SetupGraph | source/ForceDensityAPI.java:102-127 | For an n × n grid (n ≥ 2): the graph has n² nodes, the corners fixed, exactly the intended 2n(n − 1) branches, and is built. |
| Application.Setup | source/ForceDensityAPI.java:65-144 | The 6 × 6 setup gives a built graph of 36 nodes and 60 branches, and a solver with the default load, no results yet and the flat grid as boundary. |

## Left out

- Floating point: all arithmetic is exact `real`, and the `float` casts of the source are not modelled.
- `Dn.solve` (Jama's LU/QR) is a parameter of `EvalFD`. It is assumed exact when it succeeds. A failing solve stands for Jama's "Matrix is singular" exception.
- `PApplet.pow` is a parameter of `PowMatrix`. The power function only has to map 0 to 0.
- `processing.core.PApplet` is not modelled; its `pow` is the parameter above.
- Solver.PackedColumn: Jama's `Matrix(double[], m)` (JamaPacked) accepts every array whose length is m times some column count, and the empty array for every m. PackedColumn agrees with it where Jama builds one column or throws (PackedColumnAgrees). It refuses the other accepted arrays with IllegalArgument: the empty array when N > 0 (Jama builds N × 0), a longer multiple of N (several columns), and for N = 0 it gives a 0 × 1 column where Jama builds 0 × 0 (PackedNoNodes). On all of these Java gets past the conversion and, unless a solve throws first, stores the solved columns in x, y, z and throws "Matrix is not a column vector" from `makeDiagonal(u)` at ForceDensityMethod.java:118, because u = C x has x's column count.
- Solver.ForceDensityMethod.EvalFD: for the arrays of the previous line it fails at once with IllegalArgument and keeps x, y, z, where Java fails at line 118 with NotColumnVector after storing the reordered and solved columns. On a graph without nodes and empty arrays it passes when the solve does, where Java throws at line 118.
- Jama and JamaUtils are not part of this model. Their operations used here (`times`, `transpose`, `plus`, `uminus`, `getrows`, `getcolumns`, `rowAppend`, `columnAppend`, `ones`) are restated in `Matrices`.
- Solver.ForceDensityMethod.EvalFD: the source takes the graph as a parameter for Cn and Cf but uses its own field for N, B, C, `getUnknown` and `getFixed`. The model uses the field for all of them, as the application does.
- Array aliasing: the boundary arrays are stored by reference in the source and as values here. The application never writes them after `setBoundaryConditions`.
- `getBranchForces`, `printJAMAMatrix`, `showC`/`showCn`/`showCf` and the other printing and drawing helpers are output only.
- The Processing GUI is not modelled: `setup`/`draw`, the camera, the controlP5 widgets, `drawBox` and the mesh drawing. The `eval` and `drawAsMesh` buttons of `controlEvent` are not modelled. The `sysstate.size()` guard of `drawMeshGrid` is not modelled.
- 32-bit `int` overflow is not modelled. Node counts and indices are unbounded; the grid sizes involved are tiny.
- Topology.BranchNodeGraph.Create: `Arrays.binarySearch` is modelled as membership, which is what it computes on a sorted array. Create therefore requires a sorted fixed array; on an unsorted one the Java result is unspecified.
- Application.FillBoundary: the array contents are stated only for square grids (the flat grid). For nx < ny the model states the sizes and completion but not what was written.
- Application.Reconstruct: it works on the sequences the getters return and not on the `ArrayList`s themselves.
- Null arrays: a null `fixed` array (a NullPointerException at `fixed_.length`, BranchNodeGraph.java:65) and null arrays passed to `setBoundaryConditions` cannot be expressed, because both take `seq` values. The boundary arrays are null (None) only before `setBoundaryConditions` is called.
- Where the code and its documentation disagree, the model follows the code. After a failed solve, `evalFD` leaves x, y, z holding the reordered boundary columns (ForceDensityMethod.java:63-75), not their values from before the call. `build()`'s comment puts +1 where a branch ends, but the code writes +1 at `from` and −1 at `to`.

## Findings

| source | as written | input that shows it | evidently intended | confidence | as-written member | corrected member |
|---|---|---|---|---|---|---|
| source/ForceDensityAPI.java:111-115 | The horizontal branches use stride `numNodesY`: `y * numNodesY + x`. | A grid of 2 × 3 nodes adds branch (6, 7), outside the 6 nodes, so `addBranch` throws. | Stride `numNodesX`, the row length, as the vertical loop and the fill use. | not executed; equal on the shipped 6 × 6 grid | Application.RowStrideOverruns | Application.IntendedGridWithin |
| source/ForceDensityAPI.java:136-142 | The fill loops run `j < numNodesX`, `i < numNodesY` and write index `j*numNodesX + i`. | 3 × 2 nodes write index 6 into arrays of 6 and throw. | `j` over rows (`numNodesY`), `i` over columns (`numNodesX`). | not executed; equal on the shipped 6 × 6 grid | Application.BoundaryLoopOverruns | Application.FlatGridPlaces |
| source/ForceDensityMethod.java:178-192 | `getSigmaFL` adds only the entries with i == j of the 1 × B row σFL, which is its first entry alone. | σFL = [1, 1] gives 1, not the total 2. | The sum of all entries, "the sum of F * L", as the method's comment says. | not executed | Solver.ForceDensityMethod.GetSigmaFL | Solver.ForceDensityMethod.GetSigmaFLTotal |
