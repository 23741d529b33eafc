/** knn_parallel, the GPU search: kernel 1 fills the refWidth-by-queryWidth
    distance matrix, kernel 2 sorts every column into its first k rows and
    the index matrix, kernel 3 takes the root of the first k rows, and the
    first k rows of both matrices are copied back to the host. The launches
    run here one work-item after another; every work-item writes cells no
    other one touches. */
module GpuSearch {
  import opened Layout
  import opened Distance
  import opened Selection
  import opened DistanceKernel
  import opened SortKernel
  import opened SqrtKernel

  /** Cell (r, c) of the distance matrix holds the squared distance between
      reference point r and query point c if (r, c) comes before (y, x) in
      row order, and its old value otherwise. */
  ghost predicate DistancesBefore(s: seq<int>, s0: seq<int>, A: seq<int>, wA: nat, B: seq<int>, wB: nat, dim: nat,
                                  y: nat, x: nat)
    requires |s| == |s0| == wA * wB && |A| == dim * wA && |B| == dim * wB
  {
    forall r, c {:trigger Offset(r, wB, c)} :: 0 <= r < wA && 0 <= c < wB ==>
      Offset(r, wB, c) < |s| &&
      s[Offset(r, wB, c)] == if r < y || (r == y && c < x) then DistanceColumn(A, wA, B, wB, dim, c)[r] else s0[Offset(r, wB, c)]
  }

  /** Running the owner of cell (y, x) after the owners of every cell before
      it extends the filled region by that cell. */
  lemma DistanceOneMore(s: seq<int>, s0: seq<int>, A: seq<int>, wA: nat, B: seq<int>, wB: nat, dim: nat, y: nat, x: nat,
                         s': seq<int>)
    requires |s| == |s0| == wA * wB && |A| == dim * wA && |B| == dim * wB && y < wA && x < wB
    requires DistancesBefore(s, s0, A, wA, B, wB, dim, y, x)
    requires Offset(y, wB, x) < |s| && s' == s[Offset(y, wB, x) := SqDist(Point(A, wA, dim, y), Point(B, wB, dim, x))]
    ensures DistancesBefore(s', s0, A, wA, B, wB, dim, y, x + 1)
  {
    forall r, c | 0 <= r < wA && 0 <= c < wB
      ensures Offset(r, wB, c) < |s'| &&
        s'[Offset(r, wB, c)] == if r < y || (r == y && c < x + 1) then DistanceColumn(A, wA, B, wB, dim, c)[r] else s0[Offset(r, wB, c)]
    {
      OffsetBelow(r, wA, wB, c);
      OffsetInjective(r, c, y, x, wB);
    }
  }

  /** Kernel 1 over its whole grid: each cell (r, q) is computed by its
      owner, work-item (q % 16, r % 16) of work-group (q / 16, r / 16);
      afterwards column q of the matrix lists the squared distances from
      query point q to every reference point. */
  method ComputeDistanceAll(A: array<int>, wA: nat, B: array<int>, wB: nat, dim: nat, AB: array<int>)
    requires A.Length == dim * wA && B.Length == dim * wB && AB.Length == wA * wB && AB != A && AB != B
    modifies AB
    ensures forall q :: 0 <= q < wB ==> Column(AB[..], wB, q, wA) == DistanceColumn(A[..], wA, B[..], wB, dim, q)
  {
    ghost var s0 := AB[..];
    forall r, c | 0 <= r < wA && 0 <= c < wB
      ensures Offset(r, wB, c) < |s0|
    {
      OffsetBelow(r, wA, wB, c);
    }
    for r := 0 to wA
      invariant DistancesBefore(AB[..], s0, A[..], wA, B[..], wB, dim, r, 0)
    {
      for q := 0 to wB
        invariant DistancesBefore(AB[..], s0, A[..], wA, B[..], wB, dim, r, q)
      {
        ghost var S := AB[..];
        ComputeOwnedCell(A, wA, B, wB, dim, AB, r, q);
        DistanceOneMore(S, s0, A[..], wA, B[..], wB, dim, r, q, AB[..]);
      }
      assert DistancesBefore(AB[..], s0, A[..], wA, B[..], wB, dim, r + 1, 0);
    }
    AllDistances(AB[..], s0, A[..], wA, B[..], wB, dim);
  }

  /** The owner of cell (r, q): work-item (q % 16, r % 16) of work-group
      (q / 16, r / 16) writes the cell and nothing else. */
  method ComputeOwnedCell(A: array<int>, wA: nat, B: array<int>, wB: nat, dim: nat, AB: array<int>, r: nat, q: nat)
    requires A.Length == dim * wA && B.Length == dim * wB && AB.Length == wA * wB && AB != A && AB != B
    requires r < wA && q < wB
    modifies AB
    ensures Offset(r, wB, q) < AB.Length
    ensures AB[..] == old(AB[..])[Offset(r, wB, q) := SqDist(Point(A[..], wA, dim, r), Point(B[..], wB, dim, q))]
  {
    var groupY, ty := r / BLOCK_DIM, r % BLOCK_DIM;
    var groupX, tx := q / BLOCK_DIM, q % BLOCK_DIM;
    UniqueOwner(groupX, groupY, tx, ty, r, q);
    ComputeDistanceGlobal(A, wA, B, wB, dim, AB, groupX, groupY, tx, ty);
  }

  /** Once every cell is filled, every column is a distance column. */
  lemma AllDistances(s: seq<int>, s0: seq<int>, A: seq<int>, wA: nat, B: seq<int>, wB: nat, dim: nat)
    requires |s| == |s0| == wA * wB && |A| == dim * wA && |B| == dim * wB
    requires DistancesBefore(s, s0, A, wA, B, wB, dim, wA, 0)
    ensures forall q :: 0 <= q < wB ==> Column(s, wB, q, wA) == DistanceColumn(A, wA, B, wB, dim, q)
  {
    forall q | 0 <= q < wB
      ensures Column(s, wB, q, wA) == DistanceColumn(A, wA, B, wB, dim, q)
    {
      forall r | 0 <= r < wA
        ensures Column(s, wB, q, wA)[r] == DistanceColumn(A, wA, B, wB, dim, q)[r]
      {
        assert Offset(r, wB, q) < |s|;
      }
    }
  }

  /** Column x after kernel 2: the index matrix holds the stable top-k of
      the column of the distance matrix D0 it started from, and the first k
      rows of the distance matrix hold those distances in that order; the
      later rows keep their values. */
  ghost predicate SortedColumn(D0: seq<int>, dist: seq<int>, ind: seq<int>, width: nat, height: nat, k: nat, x: nat)
    requires x < width && k <= height && |D0| == height * width && |dist| == height * width && |ind| == k * width
  {
    var col, idx := Column(D0, width, x, height), Column(ind, width, x, k);
    && IsStableTopK(col, idx, k)
    && Column(dist, width, x, height)[..k] == Gather(col, idx)
    && Column(dist, width, x, height)[k..] == col[k..]
  }

  /** Kernel 2 over its whole grid: work-item x sorts column x, and
      work-items past the width do nothing. */
  method SortAll(dist: array<int>, ind: array<int>, width: nat, height: nat, k: nat)
    requires 1 <= k <= height && dist != ind && dist.Length == height * width && ind.Length == k * width
    modifies dist, ind
    ensures forall x :: 0 <= x < width ==> SortedColumn(old(dist[..]), dist[..], ind[..], width, height, k, x)
  {
    ghost var D0 := dist[..];
    for x := 0 to width
      invariant forall x' :: 0 <= x' < x ==> SortedColumn(D0, dist[..], ind[..], width, height, k, x')
      invariant forall x' :: x <= x' < width ==> Column(dist[..], width, x', height) == Column(D0, width, x', height)
    {
      ghost var D, I := dist[..], ind[..];
      assert Column(D, width, x, height) == Column(D0, width, x, height);
      InsertionSort(dist, ind, width, height, k, x);
      assert SortedColumn(D0, dist[..], ind[..], width, height, k, x);
      forall x' | 0 <= x' < width && x' != x
        ensures Column(dist[..], width, x', height) == Column(D, width, x', height)
        ensures x' < x ==> SortedColumn(D0, dist[..], ind[..], width, height, k, x')
      {
        OtherColumnUnchanged(dist[..], D, width, x, x', height);
        OtherColumnUnchanged(ind[..], I, width, x, x', k);
        if x' < x {
          assert SortedColumn(D0, D, I, width, height, k, x');
        }
      }
    }
  }

  /** The device-to-host copy of the first n entries. */
  method CopyPrefix(src: array<int>, dst: array<int>, n: nat)
    requires n <= src.Length && dst.Length == n && src != dst
    modifies dst
    ensures dst[..] == src[..n]
  {
    for p := 0 to n
      invariant dst[..p] == src[..p]
    {
      dst[p] := src[p];
    }
  }

  /** What the GPU search leaves in column q of the host outputs: the index
      matrix holds the stable top-k of the squared distances from query
      point q, and the distance matrix the roots of those distances. */
  ghost predicate KernelAnswered(ref: seq<int>, refNb: nat, query: seq<int>, queryNb: nat, dim: nat, k: nat,
                                 root: int -> int, dist: seq<int>, ind: seq<int>, q: nat)
    requires |ref| == dim * refNb && |query| == dim * queryNb && q < queryNb
    requires |dist| == k * queryNb && |ind| == k * queryNb
  {
    var col := DistanceColumn(ref, refNb, query, queryNb, dim, q);
    var idx := Column(ind, queryNb, q, k);
    IsStableTopK(col, idx, k) && Column(dist, queryNb, q, k) == Roots(root, Gather(col, idx))
  }

  /** Column q of the host outputs once the three kernels have run and the
      first k rows are copied back. */
  lemma ColumnAnswered(ref: seq<int>, refNb: nat, query: seq<int>, queryNb: nat, dim: nat, k: nat, root: int -> int,
                       D: seq<int>, S: seq<int>, R: seq<int>, ind: seq<int>, q: nat)
    requires |ref| == dim * refNb && |query| == dim * queryNb && q < queryNb && 1 <= k <= refNb
    requires |D| == |S| == |R| == refNb * queryNb && |ind| == k * queryNb
    requires Column(D, queryNb, q, refNb) == DistanceColumn(ref, refNb, query, queryNb, dim, q)
    requires SortedColumn(D, S, ind, queryNb, refNb, k, q)
    requires forall r :: 0 <= r < k ==> Offset(r, queryNb, q) < |S| && R[Offset(r, queryNb, q)] == root(S[Offset(r, queryNb, q)])
    ensures k * queryNb <= |R|
    ensures KernelAnswered(ref, refNb, query, queryNb, dim, k, root, R[..k * queryNb], ind, q)
  {
    MulMono(k, refNb, queryNb);
    var col := DistanceColumn(ref, refNb, query, queryNb, dim, q);
    var idx := Column(ind, queryNb, q, k);
    var host := R[..k * queryNb];
    forall r | 0 <= r < k
      ensures Column(host, queryNb, q, k)[r] == Roots(root, Gather(col, idx))[r]
    {
      OffsetBelow(r, k, queryNb, q);
      assert Column(S, queryNb, q, refNb)[..k][r] == Gather(col, idx)[r];
    }
  }

  /** Every column of the host outputs once the three kernels have run. */
  lemma AllAnswered(ref: seq<int>, refNb: nat, query: seq<int>, queryNb: nat, dim: nat, k: nat, root: int -> int,
                    D: seq<int>, S: seq<int>, R: seq<int>, ind: seq<int>, H: seq<int>)
    requires |ref| == dim * refNb && |query| == dim * queryNb && 1 <= k <= refNb
    requires |D| == |S| == |R| == refNb * queryNb && |ind| == k * queryNb
    requires k * queryNb <= |R| && H == R[..k * queryNb]
    requires forall q :: 0 <= q < queryNb ==> Column(D, queryNb, q, refNb) == DistanceColumn(ref, refNb, query, queryNb, dim, q)
    requires forall q :: 0 <= q < queryNb ==> SortedColumn(D, S, ind, queryNb, refNb, k, q)
    requires forall r, c {:trigger Offset(r, queryNb, c)} :: 0 <= r < refNb && 0 <= c < queryNb ==>
      Offset(r, queryNb, c) < |R| &&
      R[Offset(r, queryNb, c)] == if r < k then root(S[Offset(r, queryNb, c)]) else S[Offset(r, queryNb, c)]
    ensures forall q :: 0 <= q < queryNb ==> KernelAnswered(ref, refNb, query, queryNb, dim, k, root, H, ind, q)
  {
    forall q | 0 <= q < queryNb
      ensures KernelAnswered(ref, refNb, query, queryNb, dim, k, root, H, ind, q)
    {
      ColumnAnswered(ref, refNb, query, queryNb, dim, k, root, D, S, R, ind, q);
    }
  }

  /** knn_parallel: afterwards every column q of the host outputs answers
      query point q as KernelAnswered states. */
  method KnnParallel(ref: array<int>, refWidth: nat, query: array<int>, queryWidth: nat, height: nat, k: nat,
                     root: int -> int, distHost: array<int>, indHost: array<int>)
    requires 1 <= k <= refWidth
    requires ref.Length == height * refWidth && query.Length == height * queryWidth
    requires distHost.Length == k * queryWidth && indHost.Length == k * queryWidth
    requires distHost != indHost && distHost != ref && distHost != query && indHost != ref && indHost != query
    modifies distHost, indHost
    ensures forall q :: 0 <= q < queryWidth ==>
      KernelAnswered(ref[..], refWidth, query[..], queryWidth, height, k, root, distHost[..], indHost[..], q)
  {
    ghost var A, B := ref[..], query[..];
    var dist := new int[refWidth * queryWidth];
    var ind := new int[k * queryWidth];
    // Kernel 1: all the distances
    ComputeDistanceAll(ref, refWidth, query, queryWidth, height, dist);
    ghost var D := dist[..];
    // Kernel 2: sort each column
    SortAll(dist, ind, queryWidth, refWidth, k);
    ghost var S, I := dist[..], ind[..];
    // Kernel 3: root of the first k rows
    ParallelSqrtAll(dist, queryWidth, refWidth, k, root);
    ghost var R := dist[..];
    MulMono(k, refWidth, queryWidth);
    CopyPrefix(dist, distHost, k * queryWidth);
    CopyPrefix(ind, indHost, k * queryWidth);
    assert indHost[..] == I;
    AllAnswered(A, refWidth, B, queryWidth, height, k, root, D, S, R, I, distHost[..]);
    assert ref[..] == A && query[..] == B;
  }
}
