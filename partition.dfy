/**
 * Index bookkeeping for the two node layouts: the original order 0..n-1 and the partitioned
 * order (unknown nodes first, fixed nodes second). The node sets are described by counting:
 * Hits(i, s) are the indices below i present in s, Missing(i, s) those absent from it. These
 * are the counters of the loops that build the unknown array and that reconstruct a state.
 */
module Partition {

  /** Non-decreasing: what Arrays.binarySearch assumes of the array it searches. */
  predicate Sorted(s: seq<int>) {
    forall i, j :: 0 <= i < j < |s| ==> s[i] <= s[j]
  }

  predicate StrictlyIncreasing(s: seq<int>) {
    forall i, j :: 0 <= i < j < |s| ==> s[i] < s[j]
  }

  predicate Distinct(s: seq<int>) {
    forall i, j :: 0 <= i < j < |s| ==> s[i] != s[j]
  }

  /** Every entry of s is a node index in [0, n). */
  predicate Within(s: seq<int>, n: int) {
    forall k :: 0 <= k < |s| ==> 0 <= s[k] < n
  }

  /** A well-formed fixed-node array for n nodes: strictly ascending indices in [0, n). */
  predicate ValidFixed(n: int, fixed: seq<int>) {
    StrictlyIncreasing(fixed) && Within(fixed, n)
  }

  /** unknown lists, in strictly ascending order, exactly the indices of [0, n) absent from fixed. */
  predicate IsComplement(n: int, fixed: seq<int>, unknown: seq<int>) {
    && StrictlyIncreasing(unknown) && Within(unknown, n)
    && |unknown| == n - |fixed|
    && forall j :: 0 <= j < n ==> (j in unknown <==> j !in fixed)
  }

  ghost function Elems(s: seq<int>): set<int> {
    set x | x in s
  }

  /** The indices in [0, i) that occur in s. */
  ghost function Hits(i: int, s: seq<int>): set<int> {
    set j | 0 <= j < i && j in s
  }

  /** The indices in [0, i) that do not occur in s. */
  ghost function Missing(i: int, s: seq<int>): set<int> {
    set j | 0 <= j < i && j !in s
  }

  // --- Cardinalities --------------------------------------------------------------------

  lemma SubsetSize(a: set<int>, b: set<int>)
    requires a <= b
    ensures |a| <= |b|
  {
    assert b == a + (b - a);
    assert a * (b - a) == {};
  }

  lemma StrictSubsetSize(a: set<int>, b: set<int>, x: int)
    requires a <= b && x in b && x !in a
    ensures |a| < |b|
  {
    SubsetSize(a, b - {x});
    assert b == (b - {x}) + {x};
  }

  lemma SortedDistinct(s: seq<int>)
    requires Sorted(s)
    ensures StrictlyIncreasing(s) <==> Distinct(s)
  {
  }

  /** A sequence has at most as many distinct values as entries, and exactly as many when
      its entries are pairwise different. */
  lemma {:induction false} ElemsSize(s: seq<int>)
    ensures |Elems(s)| <= |s|
    ensures |Elems(s)| == |s| <==> Distinct(s)
    decreases |s|
  {
    if |s| > 0 {
      var init, last := s[..|s| - 1], s[|s| - 1];
      ElemsSize(init);
      assert s == init + [last];
      assert Elems(s) == Elems(init) + {last};
      if last in init {
        var k :| 0 <= k < |init| && init[k] == last;
        assert s[k] == s[|s| - 1];
        assert Elems(s) == Elems(init);
      } else {
        assert last !in Elems(init);
        assert Distinct(s) <==> Distinct(init) by {
          if Distinct(init) {
            forall i, j | 0 <= i < j < |s| ensures s[i] != s[j] {
              if j == |s| - 1 {
                assert s[i] == init[i];
              } else {
                assert s[i] == init[i] && s[j] == init[j];
              }
            }
          }
        }
      }
    }
  }

  /** One step of a counting loop over the indices. */
  lemma CountStep(i: nat, s: seq<int>)
    ensures i in s ==> Hits(i + 1, s) == Hits(i, s) + {i} && Missing(i + 1, s) == Missing(i, s)
    ensures i !in s ==> Missing(i + 1, s) == Missing(i, s) + {i} && Hits(i + 1, s) == Hits(i, s)
    ensures |Hits(i + 1, s)| == |Hits(i, s)| + (if i in s then 1 else 0)
    ensures |Missing(i + 1, s)| == |Missing(i, s)| + (if i in s then 0 else 1)
  {
    assert i !in Hits(i, s) && i !in Missing(i, s);
  }

  lemma CountMonotone(i: int, j: int, s: seq<int>)
    requires i <= j
    ensures |Hits(i, s)| <= |Hits(j, s)| && |Missing(i, s)| <= |Missing(j, s)|
  {
    SubsetSize(Hits(i, s), Hits(j, s));
    SubsetSize(Missing(i, s), Missing(j, s));
  }

  /** Every index in [0, i) is counted exactly once, as a hit or as missing. */
  lemma {:induction false} CountSplit(i: nat, s: seq<int>)
    ensures |Hits(i, s)| + |Missing(i, s)| == i
    decreases i
  {
    if i > 0 {
      CountSplit(i - 1, s);
      CountStep(i - 1, s);
    } else {
      assert Hits(0, s) == {} && Missing(0, s) == {};
    }
  }

  /**
   * For a sorted array s, at least n - |s| indices of [0, n) are absent from s, and exactly
   * n - |s| are absent precisely when s is a valid fixed-node array for n nodes.
   */
  lemma MissingSize(n: nat, s: seq<int>)
    requires Sorted(s)
    ensures |Missing(n, s)| >= n - |s|
    ensures |Missing(n, s)| == n - |s| <==> ValidFixed(n, s)
  {
    CountSplit(n, s);
    ElemsSize(s);
    SortedDistinct(s);
    assert Hits(n, s) <= Elems(s);
    SubsetSize(Hits(n, s), Elems(s));
    if ValidFixed(n, s) {
      assert Hits(n, s) == Elems(s);
    } else if Distinct(s) {
      var k :| 0 <= k < |s| && !(0 <= s[k] < n);
      assert s[k] in Elems(s) && s[k] !in Hits(n, s);
      StrictSubsetSize(Hits(n, s), Elems(s), s[k]);
    }
  }

  /** With s a valid fixed-node array, all of it is counted by Hits(n, s). */
  lemma HitsSize(n: nat, s: seq<int>)
    requires ValidFixed(n, s)
    ensures |Hits(n, s)| == |s| && |Missing(n, s)| == n - |s|
  {
    MissingSize(n, s);
    CountSplit(n, s);
  }

  /** In a strictly ascending array of non-negative indices, exactly k entries lie below s[k]:
      the rank of s[k] is k. */
  lemma RankOf(s: seq<int>, k: int)
    requires StrictlyIncreasing(s) && forall t :: 0 <= t < |s| ==> 0 <= s[t]
    requires 0 <= k < |s|
    ensures |Hits(s[k], s)| == k
  {
    forall x ensures x in Hits(s[k], s) <==> x in Elems(s[..k]) {
      if x in s {
        var m :| 0 <= m < |s| && s[m] == x;
        if m < k {
          assert x == s[..k][m];
        }
      }
      if x in s[..k] {
        var m :| 0 <= m < k && s[..k][m] == x;
        assert s[m] == x;
      }
    }
    assert Hits(s[k], s) == Elems(s[..k]);
    ElemsSize(s[..k]);
  }

  /** Below the node count, the indices missing from fixed are those present in unknown. */
  lemma MissingIsComplementHits(i: int, n: int, fixed: seq<int>, unknown: seq<int>)
    requires IsComplement(n, fixed, unknown) && i <= n
    ensures Missing(i, fixed) == Hits(i, unknown)
  {
  }

  // --- The partitioned layout -----------------------------------------------------------

  /** The layout unknown ++ fixed lists every node of [0, n) exactly once; the two blocks are
      disjoint and together cover [0, n). */
  lemma LayoutIsPermutation(n: int, fixed: seq<int>, unknown: seq<int>)
    requires ValidFixed(n, fixed) && IsComplement(n, fixed, unknown)
    ensures |unknown + fixed| == n
    ensures Within(unknown + fixed, n) && Distinct(unknown + fixed)
    ensures forall j :: 0 <= j < n ==> j in unknown + fixed
    ensures forall j :: j in unknown ==> j !in fixed
  {
    var l := unknown + fixed;
    forall a, b | 0 <= a < b < |l| ensures l[a] != l[b] {
      if b < |unknown| {
      } else if a >= |unknown| {
        assert l[a] == fixed[a - |unknown|] && l[b] == fixed[b - |unknown|];
      } else {
        assert l[a] in unknown && l[b] == fixed[b - |unknown|];
      }
    }
    forall j | 0 <= j < n ensures j in l {
      if j in unknown {
        var k :| 0 <= k < |unknown| && unknown[k] == j;
        assert l[k] == j;
      } else {
        var k :| 0 <= k < |fixed| && fixed[k] == j;
        assert l[|unknown| + k] == j;
      }
    }
  }

  /** Where node j sits in the partitioned layout: after the unknown block, at its rank in
      fixed, when j is fixed; at its rank among the unknown nodes otherwise. */
  ghost function Position(n: int, fixed: seq<int>, j: int): int {
    if j in fixed then (n - |fixed|) + |Hits(j, fixed)| else |Missing(j, fixed)|
  }

  /** Position maps each node to the slot of the layout that holds it ... */
  lemma PositionInverse(n: int, fixed: seq<int>, unknown: seq<int>, j: int)
    requires ValidFixed(n, fixed) && IsComplement(n, fixed, unknown) && 0 <= j < n
    ensures 0 <= Position(n, fixed, j) < n
    ensures (unknown + fixed)[Position(n, fixed, j)] == j
  {
    if j in fixed {
      var k :| 0 <= k < |fixed| && fixed[k] == j;
      RankOf(fixed, k);
    } else {
      var k :| 0 <= k < |unknown| && unknown[k] == j;
      RankOf(unknown, k);
      MissingIsComplementHits(j, n, fixed, unknown);
    }
  }

  /** ... and each slot of the layout back to itself. */
  lemma PositionOfSlot(n: int, fixed: seq<int>, unknown: seq<int>, k: int)
    requires ValidFixed(n, fixed) && IsComplement(n, fixed, unknown) && 0 <= k < n
    ensures Position(n, fixed, (unknown + fixed)[k]) == k
  {
    LayoutIsPermutation(n, fixed, unknown);
    if k < |unknown| {
      RankOf(unknown, k);
      MissingIsComplementHits(unknown[k], n, fixed, unknown);
    } else {
      RankOf(fixed, k - |unknown|);
    }
  }

  // --- Gathering and reassembly ---------------------------------------------------------

  /** The entries of xs at the positions idx, in the order of idx. */
  function Gather<T>(xs: seq<T>, idx: seq<int>): (r: seq<T>)
    requires Within(idx, |xs|)
    ensures |r| == |idx|
    ensures forall k :: 0 <= k < |idx| ==> r[k] == xs[idx[k]]
  {
    seq(|idx|, k requires 0 <= k < |idx| => xs[idx[k]])
  }

  /** Node j of a reassembled sequence: the next unused fixed-block entry when j is fixed,
      the next unused unknown-block entry otherwise. */
  ghost function Pick<T>(n: int, fixed: seq<int>, us: seq<T>, fs: seq<T>, j: int): T
    requires ValidFixed(n, fixed) && |us| >= n - |fixed| && |fs| >= |fixed| && 0 <= j < n
  {
    if j in fixed then
      var k :| 0 <= k < |fixed| && fixed[k] == j;
      RankOf(fixed, k);
      fs[|Hits(j, fixed)|]
    else
      CountStep(j, fixed);
      CountMonotone(j + 1, n, fixed);
      HitsSize(n, fixed);
      us[|Missing(j, fixed)|]
  }

  /** The original-order sequence rebuilt from an unknown block us and a fixed block fs. */
  ghost function Reassembled<T>(n: nat, fixed: seq<int>, us: seq<T>, fs: seq<T>): (r: seq<T>)
    requires ValidFixed(n, fixed) && |us| >= n - |fixed| && |fs| >= |fixed|
    ensures |r| == n
  {
    seq(n, j requires 0 <= j < n => Pick(n, fixed, us, fs, j))
  }

  /** Reassembly inverts the partition: gathering xs into its unknown and fixed blocks and
      reassembling them gives xs back. */
  lemma ReassembleGathered<T>(n: nat, fixed: seq<int>, unknown: seq<int>, xs: seq<T>)
    requires ValidFixed(n, fixed) && IsComplement(n, fixed, unknown) && |xs| == n
    ensures Reassembled(n, fixed, Gather(xs, unknown), Gather(xs, fixed)) == xs
  {
    var us, fs := Gather(xs, unknown), Gather(xs, fixed);
    forall j | 0 <= j < n ensures Reassembled(n, fixed, us, fs)[j] == xs[j] {
      if j in fixed {
        var k :| 0 <= k < |fixed| && fixed[k] == j;
        RankOf(fixed, k);
      } else {
        var k :| 0 <= k < |unknown| && unknown[k] == j;
        RankOf(unknown, k);
        MissingIsComplementHits(j, n, fixed, unknown);
      }
    }
  }

  /** Reassembly reads node j from slot Position(j) of the concatenated blocks. */
  lemma ReassembledAt<T>(n: nat, fixed: seq<int>, us: seq<T>, fs: seq<T>, j: int)
    requires ValidFixed(n, fixed) && |us| == n - |fixed| && |fs| == |fixed| && 0 <= j < n
    ensures 0 <= Position(n, fixed, j) < n
    ensures Reassembled(n, fixed, us, fs)[j] == (us + fs)[Position(n, fixed, j)]
  {
    if j in fixed {
      var k :| 0 <= k < |fixed| && fixed[k] == j;
      RankOf(fixed, k);
    } else {
      CountStep(j, fixed);
      CountMonotone(j + 1, n, fixed);
      HitsSize(n, fixed);
    }
  }
}
