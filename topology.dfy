/**
 * The branch-node graph of BranchNodeGraph.java: a node count, a sorted array of fixed nodes and
 * the complementary array of unknown nodes, an append-only list of directed branches, and the
 * branch x node incidence matrix C with its column blocks Cn (unknown nodes) and Cf (fixed nodes).
 */
module Topology {
  import opened Wrappers
  import opened Exceptions
  import opened Matrices
  import opened Partition

  /** A directed branch from node `from` to node `to`. */
  datatype Branch = Branch(from: int, to: int)

  predicate BranchWithin(b: Branch, n: int) {
    0 <= b.from < n && 0 <= b.to < n
  }

  /** Entry j of the incidence row of branch b as build() writes it: +1 at `from`, then -1 at
      `to`; the second write wins, so a self-loop keeps only the -1. */
  function IncidenceEntry(b: Branch, j: int): real {
    if j == b.to then -1.0 else if j == b.from then 1.0 else 0.0
  }

  function IncidenceRow(b: Branch, n: nat): (row: seq<real>)
    ensures |row| == n
    ensures forall j :: 0 <= j < n ==> row[j] == IncidenceEntry(b, j)
  {
    seq(n, j => IncidenceEntry(b, j))
  }

  /** The raw incidence matrix in original node order: one row per branch, in insertion order. */
  function Incidence(adj: seq<Branch>, n: nat): (m: Matrix)
    ensures Shaped(m, |adj|, n)
    ensures forall i, j :: 0 <= i < |adj| && 0 <= j < n ==> m.at[i][j] == IncidenceEntry(adj[i], j)
  {
    Matrix(|adj|, n, seq(|adj|, i requires 0 <= i < |adj| => IncidenceRow(adj[i], n)))
  }

  /** The raw row of a branch between two different nodes has +1 at `from`, -1 at `to`, zeros
      elsewhere, and sums to zero. */
  lemma {:induction false} IncidenceRowSum(b: Branch, n: nat)
    requires BranchWithin(b, n) && b.from != b.to
    ensures IncidenceRow(b, n)[b.from] == 1.0 && IncidenceRow(b, n)[b.to] == -1.0
    ensures forall j :: 0 <= j < n && j != b.from && j != b.to ==> IncidenceRow(b, n)[j] == 0.0
    ensures Sum(IncidenceRow(b, n)) == 0.0
  {
    SumPair(IncidenceRow(b, n), b.from, b.to);
  }

  /** The raw row of a self-loop holds a single -1, at the node, and sums to -1. */
  lemma {:induction false} SelfLoopRow(b: Branch, n: nat)
    requires BranchWithin(b, n) && b.from == b.to
    ensures IncidenceRow(b, n)[b.to] == -1.0
    ensures forall j :: 0 <= j < n && j != b.to ==> IncidenceRow(b, n)[j] == 0.0
    ensures Sum(IncidenceRow(b, n)) == -1.0
  {
    SumSingle(IncidenceRow(b, n), b.to);
  }

  /** C after build(): the unknown-node columns of the raw matrix followed by its fixed-node
      columns, C = [Cn | Cf]. */
  function Partitioned(raw: Matrix, unknown: seq<int>, fixed: seq<int>): (m: Matrix)
    requires WellFormed(raw) && Within(unknown, raw.cols) && Within(fixed, raw.cols)
    ensures Shaped(m, raw.rows, |unknown| + |fixed|)
    ensures m == GetColumns(raw, unknown + fixed)
  {
    var r := ColumnAppend(GetColumns(raw, unknown), GetColumns(raw, fixed));
    SameEntries(r, GetColumns(raw, unknown + fixed));
    r
  }

  /** Column Position(j) of the partitioned matrix is raw column j: C read back in original
      node order reproduces the raw incidence relation. */
  lemma PartitionedColumnOfNode(raw: Matrix, fixed: seq<int>, unknown: seq<int>)
    requires WellFormed(raw) && ValidFixed(raw.cols, fixed) && IsComplement(raw.cols, fixed, unknown)
    ensures forall i, j :: 0 <= i < raw.rows && 0 <= j < raw.cols ==>
      0 <= Position(raw.cols, fixed, j) < raw.cols &&
      Partitioned(raw, unknown, fixed).at[i][Position(raw.cols, fixed, j)] == raw.at[i][j]
  {
    forall j | 0 <= j < raw.cols
      ensures 0 <= Position(raw.cols, fixed, j) < raw.cols
      ensures (unknown + fixed)[Position(raw.cols, fixed, j)] == j
    {
      PositionInverse(raw.cols, fixed, unknown, j);
    }
  }

  /**
   * The product of the partitioned incidence matrix with a column vector in partitioned
   * order gives, for each branch between two different nodes, the value at `from` minus the
   * value at `to`: each row picks out exactly the two slots that hold the branch's endpoints.
   */
  lemma BranchDifference(adj: seq<Branch>, n: nat, fixed: seq<int>, unknown: seq<int>, p: Matrix, i: int)
    requires ValidFixed(n, fixed) && IsComplement(n, fixed, unknown)
    requires 0 <= i < |adj| && BranchWithin(adj[i], n) && adj[i].from != adj[i].to
    requires Shaped(p, n, 1)
    ensures 0 <= Position(n, fixed, adj[i].from) < n && 0 <= Position(n, fixed, adj[i].to) < n
    ensures Times(Partitioned(Incidence(adj, n), unknown, fixed), p).at[i][0]
      == p.at[Position(n, fixed, adj[i].from)][0] - p.at[Position(n, fixed, adj[i].to)][0]
  {
    var b, layout := adj[i], unknown + fixed;
    var cm := Partitioned(Incidence(adj, n), unknown, fixed);
    LayoutIsPermutation(n, fixed, unknown);
    var pf, pt := Position(n, fixed, b.from), Position(n, fixed, b.to);
    PositionInverse(n, fixed, unknown, b.from);
    PositionInverse(n, fixed, unknown, b.to);
    var s := Products(cm, p, i, 0);
    forall t | 0 <= t < n && t != pf && t != pt ensures s[t] == 0.0 {
      PositionOfSlot(n, fixed, unknown, t);
      assert cm.at[i][t] == IncidenceEntry(b, layout[t]);
    }
    SumPair(s, pf, pt);
  }

  /**
   * The blocks as build() leaves them for the first `rows` branches of adj: entry (i, k) of
   * cn is the raw incidence entry of branch i at unknown node k, that of cf the one at fixed
   * node k, and c is [cn | cf].
   */
  ghost predicate Blocks(adj: seq<Branch>, unknown: seq<int>, fixed: seq<int>, rows: nat,
                         cn: Matrix, cf: Matrix, c: Matrix)
  {
    var nu, nf := |unknown|, |fixed|;
    && rows <= |adj|
    && Shaped(cn, rows, nu) && Shaped(cf, rows, nf) && Shaped(c, rows, nu + nf)
    && (forall i, k {:trigger cn.at[i][k]} :: 0 <= i < rows && 0 <= k < nu ==>
          cn.at[i][k] == IncidenceEntry(adj[i], unknown[k]))
    && (forall i, k {:trigger cf.at[i][k]} :: 0 <= i < rows && 0 <= k < nf ==>
          cf.at[i][k] == IncidenceEntry(adj[i], fixed[k]))
    && c == ColumnAppend(cn, cf)
  }

  /** The columns idx of the raw incidence matrix hold the incidence at the nodes idx. */
  lemma ColumnsOfIncidence(adj: seq<Branch>, n: nat, idx: seq<int>)
    requires Within(idx, n)
    ensures var m := GetColumns(Incidence(adj, n), idx);
      Shaped(m, |adj|, |idx|) &&
      forall i, k {:trigger m.at[i][k]} :: 0 <= i < |adj| && 0 <= k < |idx| ==> m.at[i][k] == IncidenceEntry(adj[i], idx[k])
  {
  }

  /** The blocks cut from the raw incidence matrix of adj are its Blocks. */
  lemma BuiltBlocks(adj: seq<Branch>, n: nat, unknown: seq<int>, fixed: seq<int>)
    requires Within(unknown, n) && Within(fixed, n)
    ensures var raw := Incidence(adj, n);
      var cn, cf := GetColumns(raw, unknown), GetColumns(raw, fixed);
      Blocks(adj, unknown, fixed, |adj|, cn, cf, ColumnAppend(cn, cf))
  {
    ColumnsOfIncidence(adj, n, unknown);
    ColumnsOfIncidence(adj, n, fixed);
  }

  /**
   * BranchNodeGraph. The node count and both index arrays are set once, by Create; branches
   * are appended by AddBranch; Build fills C, Cn and Cf, which are null (None) before.
   */
  class BranchNodeGraph {
    const nodes: nat
    const fixedIdx: seq<int>
    const unknownIdx: seq<int>
    var branches: int
    var adj: seq<Branch>
    var c: Option<Matrix>
    var cn: Option<Matrix>
    var cf: Option<Matrix>

    /**
     * The object invariant: the two index arrays partition [0, nodes); branches counts adj;
     * every branch joins two existing nodes; and once built, the blocks are the columns of
     * the raw incidence matrix of the branches present at the time of building (the first
     * cn.rows of adj, since adj only grows) and C is their concatenation.
     */
    ghost predicate Valid()
      reads this
    {
      && ValidFixed(nodes, fixedIdx) && IsComplement(nodes, fixedIdx, unknownIdx)
      && branches == |adj|
      && (forall i :: 0 <= i < |adj| ==> BranchWithin(adj[i], nodes))
      && (c.Some? <==> cn.Some?) && (c.Some? <==> cf.Some?)
      && (cn.Some? ==> Blocks(adj, unknownIdx, fixedIdx, cn.value.rows, cn.value, cf.value, c.value))
    }

    /** Built, and no branch was added since. */
    ghost predicate Ready()
      reads this
    {
      Valid() && cn.Some? && cn.value.rows == |adj|
    }

    /** The state right after construction, with the partition already computed. */
    constructor Init(n: nat, fixed: seq<int>, unknown: seq<int>)
      requires ValidFixed(n, fixed) && IsComplement(n, fixed, unknown)
      ensures Valid()
      ensures nodes == n && fixedIdx == fixed && unknownIdx == unknown
      ensures adj == [] && branches == 0 && c == None && cn == None && cf == None
    {
      nodes, fixedIdx, unknownIdx := n, fixed, unknown;
      branches, adj := 0, [];
      c, cn, cf := None, None, None;
    }

    /**
     * The constructor BranchNodeGraph(N, fixed): refuses a negative node count, then lets the
     * unknown-node loop run, which fails for a fixed array that is not strictly ascending
     * within [0, N). The fixed array must be sorted, as the binary search assumes.
     */
    static method Create(n: int, fixed: seq<int>) returns (r: Result<BranchNodeGraph, Error>)
      requires Sorted(fixed)
      ensures n < 0 ==> r == Failure(IllegalNodeCount)
      ensures n >= 0 ==> (r.Success? <==> ValidFixed(n, fixed))
      ensures n >= 0 && |fixed| > n ==> r == Failure(NegativeArraySize(n - |fixed|))
      ensures n >= 0 && |fixed| <= n && !ValidFixed(n, fixed) ==> r == Failure(ArrayIndexOutOfBounds(n - |fixed|))
      ensures r.Success? ==> fresh(r.value) && r.value.Valid()
      ensures r.Success? ==> r.value.nodes == n && r.value.fixedIdx == fixed && r.value.adj == []
      ensures r.Success? ==> r.value.c == None && r.value.cn == None && r.value.cf == None
    {
      if n < 0 {
        return Failure(IllegalNodeCount);
      }
      var u := UnknownNodes(n, fixed);
      if u.Failure? {
        return Failure(u.error);
      }
      var g := new BranchNodeGraph.Init(n, fixed, u.value);
      r := Success(g);
    }

    /** validate(v): v must be a node index. */
    function Validate(v: int): (r: Outcome<Error>)
      reads this
      ensures r.Pass? <==> 0 <= v < nodes
      ensures r.Fail? ==> r.error == IndexOutOfBounds(v, nodes)
    {
      if v < 0 || v >= nodes then Fail(IndexOutOfBounds(v, nodes)) else Pass
    }

    /**
     * addBranch(v, w): both endpoints are validated, v first, before anything changes; then
     * the branch is appended and the branch count incremented.
     */
    method AddBranch(v: int, w: int) returns (r: Outcome<Error>)
      requires Valid()
      modifies this
      ensures Valid()
      ensures r.Pass? <==> 0 <= v < nodes && 0 <= w < nodes
      ensures r.Fail? ==> r.error == IndexOutOfBounds(if 0 <= v < nodes then w else v, nodes)
      ensures r.Pass? ==> adj == old(adj) + [Branch(v, w)] && branches == old(branches) + 1
      ensures r.Fail? ==> adj == old(adj) && branches == old(branches)
      ensures c == old(c) && cn == old(cn) && cf == old(cf)
    {
      r := Validate(v);
      if r.Fail? {
        return;
      }
      r := Validate(w);
      if r.Fail? {
        return;
      }
      adj := adj + [Branch(v, w)];
      branches := branches + 1;
    }

    /**
     * build(): fills a fresh |adj| x nodes zero matrix row by row, +1 at each branch's `from`
     * and then -1 at its `to`, cuts out the unknown-node columns Cn and the fixed-node columns
     * Cf, and replaces C by [Cn | Cf].
     */
    method Build()
      requires Valid()
      modifies this
      ensures Ready()
      ensures adj == old(adj) && branches == old(branches)
      ensures cn == Some(GetColumns(Incidence(adj, nodes), unknownIdx))
      ensures cf == Some(GetColumns(Incidence(adj, nodes), fixedIdx))
      ensures c == Some(Partitioned(Incidence(adj, nodes), unknownIdx, fixedIdx))
    {
      var rows, cols := branches, nodes;
      var raw := new real[rows, cols]((_, _) => 0.0);
      var counter := 0;
      while counter < |adj|
        modifies raw
        invariant 0 <= counter <= |adj|
        invariant forall i, j :: 0 <= i < |adj| && 0 <= j < nodes ==>
          raw[i, j] == if i < counter then IncidenceEntry(adj[i], j) else 0.0
      {
        var b := adj[counter];
        raw[counter, b.from] := 1.0;
        raw[counter, b.to] := -1.0;
        counter := counter + 1;
      }
      var m := Matrix(rows, cols,
        seq(rows, i requires 0 <= i < rows reads raw =>
          seq(cols, j requires 0 <= j < cols reads raw => raw[i, j])));
      SameEntries(m, Incidence(adj, nodes));
      BuiltBlocks(adj, nodes, unknownIdx, fixedIdx);
      cn := Some(GetColumns(m, unknownIdx));
      cf := Some(GetColumns(m, fixedIdx));
      c := Some(ColumnAppend(cn.value, cf.value));
    }

    // --- getters ----------------------------------------------------------------------

    /** N(): the node count, which the two index arrays split between them. */
    function N(): (n: nat)
      reads this
      requires Valid()
      ensures n == |unknownIdx| + |fixedIdx|
    {
      nodes
    }

    /** B(): the branch count, always the length of the branch list. */
    function B(): (b: nat)
      reads this
      requires Valid()
      ensures b == |adj|
    {
      branches
    }

    /** C(): null before build; afterwards, column k is raw incidence column layout[k] of the
        branches present at build time, where layout = unknown ++ fixed. */
    function C(): (r: Option<Matrix>)
      reads this
      requires Valid()
      ensures r.Some? <==> cn.Some?
      ensures r.Some? ==> r.value.rows <= |adj| && Shaped(r.value, r.value.rows, nodes)
      ensures r.Some? ==> forall i, k :: 0 <= i < r.value.rows && 0 <= k < nodes ==>
        r.value.at[i][k] == IncidenceEntry(adj[i], (unknownIdx + fixedIdx)[k])
    {
      c
    }

    /** Cn(): column k is raw incidence column unknown[k]. */
    function Cn(): (r: Option<Matrix>)
      reads this
      requires Valid()
      ensures r.Some? ==> r.value.rows <= |adj| && Shaped(r.value, r.value.rows, |unknownIdx|)
      ensures r.Some? ==> forall i, k :: 0 <= i < r.value.rows && 0 <= k < |unknownIdx| ==>
        r.value.at[i][k] == IncidenceEntry(adj[i], unknownIdx[k])
    {
      cn
    }

    /** Cf(): column k is raw incidence column fixed[k]. */
    function Cf(): (r: Option<Matrix>)
      reads this
      requires Valid()
      ensures r.Some? ==> r.value.rows <= |adj| && Shaped(r.value, r.value.rows, |fixedIdx|)
      ensures r.Some? ==> forall i, k :: 0 <= i < r.value.rows && 0 <= k < |fixedIdx| ==>
        r.value.at[i][k] == IncidenceEntry(adj[i], fixedIdx[k])
    {
      cf
    }

    /** getFixed(): the fixed nodes, strictly ascending within [0, N). */
    function GetFixed(): (f: seq<int>)
      reads this
      requires Valid()
      ensures ValidFixed(nodes, f)
    {
      fixedIdx
    }

    /** getUnknown(): exactly the nodes of [0, N) that are not fixed, ascending. */
    function GetUnknown(): (u: seq<int>)
      reads this
      requires Valid()
      ensures IsComplement(nodes, fixedIdx, u)
    {
      unknownIdx
    }

    /** fixed(): the number of fixed nodes. */
    function Fixed(): (k: nat)
      reads this
      requires Valid()
      ensures k <= nodes && k == |GetFixed()|
    {
      |fixedIdx|
    }

    /** unknown(): the number of unknown nodes. */
    function Unknown(): (k: nat)
      reads this
      requires Valid()
      ensures k == nodes - Fixed()
    {
      |unknownIdx|
    }
  }

  /**
   * The loop of the BranchNodeGraph constructor. It allocates unknown_ with n - |fixed|
   * entries, then stores every i in [0, n) that the binary search does not find in fixed at
   * position count, which advances. A fixed array with more entries than nodes makes the
   * allocation fail; a sorted fixed array with a repeated or out-of-range entry leaves more
   * absent indices than slots, and the write one past the end fails.
   */
  method UnknownNodes(n: nat, fixed: seq<int>) returns (r: Result<seq<int>, Error>)
    requires Sorted(fixed)
    ensures r.Success? <==> ValidFixed(n, fixed)
    ensures |fixed| > n ==> r == Failure(NegativeArraySize(n - |fixed|))
    ensures |fixed| <= n && !ValidFixed(n, fixed) ==> r == Failure(ArrayIndexOutOfBounds(n - |fixed|))
    ensures r.Success? ==> IsComplement(n, fixed, r.value)
  {
    MissingSize(n, fixed);
    if |fixed| > n {
      return Failure(NegativeArraySize(n - |fixed|));
    }
    var unknown := new int[n - |fixed|];
    var overflow := ScanUnknown(n, fixed, unknown);
    if overflow {
      return Failure(ArrayIndexOutOfBounds(unknown.Length));
    }
    ScanDone(n, fixed, unknown[..]);
    r := Success(unknown[..]);
  }

  /** The loop itself: it stops at the first absent index with no slot left, or else fills
      every slot with the absent indices in ascending order. */
  method ScanUnknown(n: nat, fixed: seq<int>, unknown: array<int>) returns (overflow: bool)
    requires unknown.Length <= |Missing(n, fixed)|
    modifies unknown
    ensures overflow <==> unknown.Length < |Missing(n, fixed)|
    ensures !overflow ==> Scanned(n, fixed, unknown[..]) && |Missing(n, fixed)| == unknown.Length
  {
    var count: nat := 0;
    for i := 0 to n
      invariant count <= unknown.Length
      invariant Scanned(i, fixed, unknown[..count])
    {
      count, overflow := ScanIndex(i, n, fixed, unknown, count);
      if overflow {
        return;
      }
    }
    ScannedCount(n, n, fixed, unknown[..count]);
    assert unknown[..count] == unknown[..];
    overflow := false;
  }

  /** One iteration of the loop, for index i: an absent index goes to the next slot, or
      overflows the array when no slot is left. */
  method ScanIndex(i: nat, n: nat, fixed: seq<int>, unknown: array<int>, count: nat) returns (next: nat, overflow: bool)
    requires i < n && count <= unknown.Length && Scanned(i, fixed, unknown[..count])
    modifies unknown
    ensures next <= unknown.Length
    ensures overflow ==> unknown.Length < |Missing(n, fixed)|
    ensures !overflow ==> Scanned(i + 1, fixed, unknown[..next])
  {
    ghost var found := unknown[..count];
    ScanStep(i, fixed, found);
    next, overflow := count, false;
    if i !in fixed {
      if count == unknown.Length {
        ScannedCount(i + 1, n, fixed, found + [i]);
        return count, true;
      }
      unknown[count] := i;
      assert unknown[..count + 1] == found + [i];
      next := count + 1;
    }
  }

  /** What the unknown-node loop has collected after scanning [0, i): every absent index,
      in ascending order, and nothing else. */
  ghost predicate Scanned(i: int, fixed: seq<int>, found: seq<int>) {
    && StrictlyIncreasing(found)
    && (forall k :: 0 <= k < |found| ==> 0 <= found[k] < i && found[k] !in fixed)
    && (forall j :: 0 <= j < i && j !in fixed ==> j in found)
  }

  lemma ScanStep(i: int, fixed: seq<int>, found: seq<int>)
    requires 0 <= i && Scanned(i, fixed, found)
    ensures Scanned(i + 1, fixed, if i in fixed then found else found + [i])
  {
    if i !in fixed {
      var next := found + [i];
      forall j | 0 <= j < i + 1 && j !in fixed ensures j in next {
        if j < i {
          var k :| 0 <= k < |found| && found[k] == j;
          assert next[k] == j;
        } else {
          assert next[|found|] == j;
        }
      }
    }
  }

  /** What has been collected after scanning [0, i) is as many indices as are absent from
      [0, i), and no more than are absent from [0, n). */
  lemma ScannedCount(i: nat, n: nat, fixed: seq<int>, found: seq<int>)
    requires i <= n && Scanned(i, fixed, found)
    ensures |found| == |Missing(i, fixed)| <= |Missing(n, fixed)|
  {
    assert Elems(found) == Missing(i, fixed);
    ElemsSize(found);
    CountMonotone(i, n, fixed);
  }

  lemma ScanDone(n: nat, fixed: seq<int>, found: seq<int>)
    requires Scanned(n, fixed, found) && |found| == n - |fixed|
    ensures IsComplement(n, fixed, found)
  {
  }
}
