/** What the program's main checks: the GPU search and knn_c return the same
    neighbours in the same order, and the same distances. The GPU selects on
    squared distances and takes the root afterwards, knn_c takes the root
    first and selects on rooted distances; both agree because the root is
    strictly increasing on the non-negative numbers and squared distances
    are never negative. */
module Agreement {
  import opened Layout
  import opened Distance
  import opened Selection
  import opened KnnSearch
  import opened GpuSearch

  /** root is strictly increasing on the non-negative numbers, as the square
      root is. */
  ghost predicate StrictlyIncreasing(root: int -> int) {
    forall a, b :: 0 <= a < b ==> root(a) < root(b)
  }

  /** Applying a strictly increasing root to a column of non-negative values
      keeps the stable order of its rows, so the stable top-k of the rooted
      column is the stable top-k of the column, and conversely. */
  lemma RootsKeepTopK(root: int -> int, col: seq<int>, idx: seq<int>, k: nat)
    requires StrictlyIncreasing(root) && forall j :: 0 <= j < |col| ==> col[j] >= 0
    ensures IsStableTopK(Roots(root, col), idx, k) <==> IsStableTopK(col, idx, k)
  {
    var rc := Roots(root, col);
    forall a, b | 0 <= a < |col| && 0 <= b < |col|
      ensures Before(rc, a, b) <==> Before(col, a, b)
    {
      if col[a] < col[b] {
        assert root(col[a]) < root(col[b]);
      } else if col[b] < col[a] {
        assert root(col[b]) < root(col[a]);
      }
    }
  }

  /** Rooting the gathered values is gathering the rooted values. */
  lemma GatherRoots(root: int -> int, col: seq<int>, idx: seq<int>)
    requires forall i :: 0 <= i < |idx| ==> 0 <= idx[i] < |col|
    ensures Roots(root, Gather(col, idx)) == Gather(Roots(root, col), idx)
  {
  }

  /** Column q of both searches' outputs: the same rows in the same order,
      and the same distances. */
  lemma ColumnsAgree(ref: seq<int>, refNb: nat, query: seq<int>, queryNb: nat, dim: nat, k: nat, root: int -> int,
                     gpuDist: seq<int>, gpuInd: seq<int>, cpuDist: seq<int>, cpuInd: seq<int>, q: nat)
    requires StrictlyIncreasing(root)
    requires |ref| == dim * refNb && |query| == dim * queryNb && q < queryNb
    requires |gpuDist| == |gpuInd| == |cpuDist| == |cpuInd| == k * queryNb
    requires KernelAnswered(ref, refNb, query, queryNb, dim, k, root, gpuDist, gpuInd, q)
    requires Answered(ref, refNb, query, queryNb, dim, k, root, cpuDist, cpuInd, q)
    ensures Column(gpuInd, queryNb, q, k) == Column(cpuInd, queryNb, q, k)
    ensures Column(gpuDist, queryNb, q, k) == Column(cpuDist, queryNb, q, k)
  {
    var col := DistanceColumn(ref, refNb, query, queryNb, dim, q);
    forall j | 0 <= j < |col|
      ensures col[j] >= 0
    {
      SqDistNonNegative(Point(ref, refNb, dim, j), Point(query, queryNb, dim, q));
    }
    var g, c := Column(gpuInd, queryNb, q, k), Column(cpuInd, queryNb, q, k);
    RootsKeepTopK(root, col, c, k);
    TopKUnique(col, g, c, k);
    GatherRoots(root, col, g);
  }

  /** main's comparison: once both searches have run, the index outputs are
      equal entry by entry, and so are the distance outputs. */
  lemma OutputsAgree(ref: seq<int>, refNb: nat, query: seq<int>, queryNb: nat, dim: nat, k: nat, root: int -> int,
                     gpuDist: seq<int>, gpuInd: seq<int>, cpuDist: seq<int>, cpuInd: seq<int>)
    requires StrictlyIncreasing(root)
    requires |ref| == dim * refNb && |query| == dim * queryNb
    requires |gpuDist| == |gpuInd| == |cpuDist| == |cpuInd| == k * queryNb
    requires forall q :: 0 <= q < queryNb ==> KernelAnswered(ref, refNb, query, queryNb, dim, k, root, gpuDist, gpuInd, q)
    requires forall q :: 0 <= q < queryNb ==> Answered(ref, refNb, query, queryNb, dim, k, root, cpuDist, cpuInd, q)
    ensures gpuInd == cpuInd && gpuDist == cpuDist
  {
    forall q | 0 <= q < queryNb
      ensures Column(gpuInd, queryNb, q, k) == Column(cpuInd, queryNb, q, k)
      ensures Column(gpuDist, queryNb, q, k) == Column(cpuDist, queryNb, q, k)
    {
      ColumnsAgree(ref, refNb, query, queryNb, dim, k, root, gpuDist, gpuInd, cpuDist, cpuInd, q);
    }
    ColumnsDetermine(gpuInd, cpuInd, queryNb, k);
    ColumnsDetermine(gpuDist, cpuDist, queryNb, k);
  }

  /** The number of positions n' < n at which a and b hold the same value. */
  function Matches(a: seq<int>, b: seq<int>, n: nat): (m: nat)
    requires n <= |a| && n <= |b|
    ensures m <= n
    decreases n
  {
    if n == 0 then 0 else Matches(a, b, n - 1) + (if a[n - 1] == b[n - 1] then 1 else 0)
  }

  /** The number of positions n' < n at which a and b differ by at most
      precision. */
  function WithinPrecision(a: seq<int>, b: seq<int>, n: nat, precision: int): (m: nat)
    requires n <= |a| && n <= |b|
    ensures m <= n
    decreases n
  {
    if n == 0 then 0
    else WithinPrecision(a, b, n - 1, precision) + (if -precision <= a[n - 1] - b[n - 1] <= precision then 1 else 0)
  }

  /** Every position matches exactly when the first n entries are equal. */
  lemma {:induction false} MatchesAllIff(a: seq<int>, b: seq<int>, n: nat)
    requires n <= |a| && n <= |b|
    ensures Matches(a, b, n) == n <==> a[..n] == b[..n]
    decreases n
  {
    if n > 0 {
      MatchesAllIff(a, b, n - 1);
      assert a[..n] == a[..n - 1] + [a[n - 1]] && b[..n] == b[..n - 1] + [b[n - 1]];
      if a[..n] == b[..n] {
        assert a[..n - 1] == a[..n][..n - 1] && b[..n - 1] == b[..n][..n - 1];
        assert a[n - 1] == a[..n][n - 1];
      }
    }
  }

  /** Equal entries are within any non-negative precision of each other. */
  lemma {:induction false} EqualWithinPrecision(a: seq<int>, b: seq<int>, n: nat, precision: int)
    requires n <= |a| && n <= |b| && 0 <= precision && a[..n] == b[..n]
    ensures WithinPrecision(a, b, n, precision) == n
    decreases n
  {
    if n > 0 {
      assert a[n - 1] == a[..n][n - 1] && b[n - 1] == b[..n][n - 1];
      assert a[..n - 1] == a[..n][..n - 1] && b[..n - 1] == b[..n][..n - 1];
      EqualWithinPrecision(a, b, n - 1, precision);
    }
  }

  /** main's tally over the n output entries: how many distances lie within
      precision of the ground truth and how many indexes equal it. */
  method CountCorrect(dist: array<int>, knnDist: array<int>, ind: array<int>, knnIndex: array<int>, n: nat, precision: int)
    returns (correctPrecisions: nat, correctIndexes: nat)
    requires n <= dist.Length && n <= knnDist.Length && n <= ind.Length && n <= knnIndex.Length
    ensures correctPrecisions == WithinPrecision(dist[..], knnDist[..], n, precision)
    ensures correctIndexes == Matches(ind[..], knnIndex[..], n)
  {
    correctPrecisions, correctIndexes := 0, 0;
    for i := 0 to n
      invariant correctPrecisions == WithinPrecision(dist[..], knnDist[..], i, precision)
      invariant correctIndexes == Matches(ind[..], knnIndex[..], i)
    {
      var diff := dist[i] - knnDist[i];
      if -precision <= diff <= precision {
        correctPrecisions := correctPrecisions + 1;
      }
      if ind[i] == knnIndex[i] {
        correctIndexes := correctIndexes + 1;
      }
    }
  }

  /** main: the ground truth from knn_c, then the GPU search, then the
      tally. When knn_c succeeds, every index and every distance of the GPU
      search is counted as correct: both accuracies are 1. */
  method CompareSearches(ref: array<int>, refNb: nat, query: array<int>, queryNb: nat, dim: nat, k: nat,
                         root: int -> int, precision: int, allocOk: bool,
                         knnDist: array<int>, knnIndex: array<int>, dist: array<int>, ind: array<int>)
    returns (ok: bool, correctPrecisions: nat, correctIndexes: nat)
    requires StrictlyIncreasing(root) && 0 <= precision && 1 <= k <= refNb
    requires ref.Length == dim * refNb && query.Length == dim * queryNb
    requires knnDist.Length == k * queryNb && knnIndex.Length == k * queryNb
    requires dist.Length == k * queryNb && ind.Length == k * queryNb
    requires knnDist != knnIndex && knnDist != ref && knnDist != query && knnIndex != ref && knnIndex != query
    requires dist != ind && dist != ref && dist != query && ind != ref && ind != query
    requires dist != knnDist && dist != knnIndex && ind != knnDist && ind != knnIndex
    modifies knnDist, knnIndex, dist, ind
    ensures ok == allocOk
    ensures ok ==> correctPrecisions == k * queryNb && correctIndexes == k * queryNb
    ensures ok ==> dist[..] == knnDist[..] && ind[..] == knnIndex[..]
  {
    correctPrecisions, correctIndexes := 0, 0;
    ok := KnnC(ref, refNb, query, queryNb, dim, k, knnDist, knnIndex, root, allocOk);
    if !ok {
      return;
    }
    KnnParallel(ref, refNb, query, queryNb, dim, k, root, dist, ind);
    OutputsAgree(ref[..], refNb, query[..], queryNb, dim, k, root, dist[..], ind[..], knnDist[..], knnIndex[..]);
    correctPrecisions, correctIndexes := CountCorrect(dist, knnDist, ind, knnIndex, k * queryNb, precision);
    assert dist[..k * queryNb] == dist[..] && knnDist[..k * queryNb] == knnDist[..];
    assert ind[..k * queryNb] == ind[..] && knnIndex[..k * queryNb] == knnIndex[..];
    EqualWithinPrecision(dist[..], knnDist[..], k * queryNb, precision);
    MatchesAllIff(ind[..], knnIndex[..], k * queryNb);
  }
}
