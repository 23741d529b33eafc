/** knn_c, the sequential search the GPU result is checked against: for
    each query point it fills scratch arrays with the rooted distances to
    every reference point and their row numbers, selects the k nearest with
    modified_insertion_sort and scatters them into column i of the k-by-
    queryNb outputs. */
module KnnSearch {
  import opened Layout
  import opened Distance
  import opened Selection
  import opened Oracle

  /** The distance loop of knn_c for query point i: slot j of dist receives
      compute_distance(..., j, i) and slot j of index receives j. */
  method FillDistances(ref: array<int>, refNb: nat, query: array<int>, queryNb: nat, dim: nat, i: nat,
                       root: int -> int, dist: array<int>, index: array<int>)
    requires ref.Length == dim * refNb && query.Length == dim * queryNb && i < queryNb
    requires dist.Length == refNb && index.Length == refNb
    requires dist != index && dist != ref && dist != query && index != ref && index != query
    modifies dist, index
    ensures dist[..] == Roots(root, DistanceColumn(ref[..], refNb, query[..], queryNb, dim, i))
    ensures forall j :: 0 <= j < refNb ==> index[j] == j
  {
    ghost var col := Roots(root, DistanceColumn(ref[..], refNb, query[..], queryNb, dim, i));
    for j := 0 to refNb
      invariant forall jj :: 0 <= jj < j ==> dist[jj] == col[jj] && index[jj] == jj
    {
      var d := ComputeDistance(ref, refNb, query, queryNb, dim, j, i, root);
      dist[j] := d;
      index[j] := j;
    }
  }

  /** The copy loop of knn_c: the first k slots of dist and index become
      column i of knnDist and knnIndex (k rows of queryNb entries), at flat
      positions j * queryNb + i; nothing outside column i changes. */
  method CopyOut(dist: array<int>, index: array<int>, k: nat, queryNb: nat, i: nat,
                 knnDist: array<int>, knnIndex: array<int>)
    requires i < queryNb && k <= dist.Length && k <= index.Length
    requires knnDist.Length == k * queryNb && knnIndex.Length == k * queryNb
    requires knnDist != knnIndex && knnDist != dist && knnDist != index && knnIndex != dist && knnIndex != index
    modifies knnDist, knnIndex
    ensures Column(knnDist[..], queryNb, i, k) == dist[..k] && Column(knnIndex[..], queryNb, i, k) == index[..k]
    ensures OnlyColumnChanged(knnDist[..], old(knnDist[..]), queryNb, i)
    ensures OnlyColumnChanged(knnIndex[..], old(knnIndex[..]), queryNb, i)
  {
    ghost var C0, J0 := Column(knnDist[..], queryNb, i, k), Column(knnIndex[..], queryNb, i, k);
    ghost var Dk, Ik := dist[..k], index[..k];
    for j := 0 to k
      invariant Column(knnDist[..], queryNb, i, k) == Dk[..j] + C0[j..]
      invariant Column(knnIndex[..], queryNb, i, k) == Ik[..j] + J0[j..]
      invariant OnlyColumnChanged(knnDist[..], old(knnDist[..]), queryNb, i)
      invariant OnlyColumnChanged(knnIndex[..], old(knnIndex[..]), queryNb, i)
    {
      ghost var E, F := knnDist[..], knnIndex[..];
      CopySlot(knnDist, k, queryNb, i, j, dist[j], Dk, C0);
      CopySlot(knnIndex, k, queryNb, i, j, index[j], Ik, J0);
      OnlyColumnChangedTrans(knnDist[..], E, old(knnDist[..]), queryNb, i);
      OnlyColumnChangedTrans(knnIndex[..], F, old(knnIndex[..]), queryNb, i);
    }
    assert Dk[..k] + C0[k..] == Dk;
    assert Ik[..k] + J0[k..] == Ik;
  }

  /** One step of the copy loop on one output: out[j * queryNb + i] = v,
      with v slot j of the source S; the column holds one more slot of S. */
  method CopySlot(out: array<int>, k: nat, queryNb: nat, i: nat, j: nat, v: int, ghost S: seq<int>, ghost C0: seq<int>)
    requires i < queryNb && j < k == |S| == |C0| && out.Length == k * queryNb && v == S[j]
    requires Column(out[..], queryNb, i, k) == S[..j] + C0[j..]
    modifies out
    ensures Column(out[..], queryNb, i, k) == S[..j + 1] + C0[j + 1..]
    ensures OnlyColumnChanged(out[..], old(out[..]), queryNb, i)
  {
    ColumnUpdate(out[..], queryNb, i, k, j, v);
    SetCell(out, k, queryNb, j, i, v);
    SpliceStep(S, C0, j);
  }

  /** Taking one more entry from a instead of b. */
  lemma SpliceStep(a: seq<int>, b: seq<int>, j: nat)
    requires |a| == |b| && j < |a|
    ensures a[..j + 1] + b[j + 1..] == (a[..j] + b[j..])[j := a[j]]
  {
  }

  /** Column i of the outputs answers query point i: knnIndex holds the
      stable top-k of the rooted distances from query point i to every
      reference point, and knnDist those distances, in the same order. */
  ghost predicate Answered(ref: seq<int>, refNb: nat, query: seq<int>, queryNb: nat, dim: nat, k: nat,
                           root: int -> int, knnDist: seq<int>, knnIndex: seq<int>, i: nat)
    requires |ref| == dim * refNb && |query| == dim * queryNb && i < queryNb
    requires |knnDist| == k * queryNb && |knnIndex| == k * queryNb
  {
    var col := Roots(root, DistanceColumn(ref, refNb, query, queryNb, dim, i));
    var idx := Column(knnIndex, queryNb, i, k);
    IsStableTopK(col, idx, k) && Column(knnDist, queryNb, i, k) == Gather(col, idx)
  }

  /** Writing only column i leaves every other query's answer as it was. */
  lemma AnsweredKept(ref: seq<int>, refNb: nat, query: seq<int>, queryNb: nat, dim: nat, k: nat, root: int -> int,
                     knnDist: seq<int>, knnIndex: seq<int>, knnDist': seq<int>, knnIndex': seq<int>, i: nat, i': nat)
    requires |ref| == dim * refNb && |query| == dim * queryNb && i < queryNb && i' < queryNb && i != i'
    requires |knnDist| == k * queryNb && |knnIndex| == k * queryNb
    requires OnlyColumnChanged(knnDist', knnDist, queryNb, i) && OnlyColumnChanged(knnIndex', knnIndex, queryNb, i)
    requires Answered(ref, refNb, query, queryNb, dim, k, root, knnDist, knnIndex, i')
    ensures Answered(ref, refNb, query, queryNb, dim, k, root, knnDist', knnIndex', i')
  {
    OtherColumnUnchanged(knnDist', knnDist, queryNb, i, i', k);
    OtherColumnUnchanged(knnIndex', knnIndex, queryNb, i, i', k);
  }

  /** One iteration of knn_c's query loop: distances, selection, copy. */
  method AnswerQuery(ref: array<int>, refNb: nat, query: array<int>, queryNb: nat, dim: nat, k: nat, i: nat,
                     root: int -> int, dist: array<int>, index: array<int>, knnDist: array<int>, knnIndex: array<int>)
    requires 1 <= k <= refNb && i < queryNb
    requires ref.Length == dim * refNb && query.Length == dim * queryNb
    requires dist.Length == refNb && index.Length == refNb
    requires knnDist.Length == k * queryNb && knnIndex.Length == k * queryNb
    requires dist != index && dist != ref && dist != query && index != ref && index != query
    requires knnDist != knnIndex && knnDist != dist && knnDist != index && knnIndex != dist && knnIndex != index
    requires knnDist != ref && knnDist != query && knnIndex != ref && knnIndex != query
    modifies dist, index, knnDist, knnIndex
    ensures Answered(ref[..], refNb, query[..], queryNb, dim, k, root, knnDist[..], knnIndex[..], i)
    ensures OnlyColumnChanged(knnDist[..], old(knnDist[..]), queryNb, i)
    ensures OnlyColumnChanged(knnIndex[..], old(knnIndex[..]), queryNb, i)
  {
    FillDistances(ref, refNb, query, queryNb, dim, i, root, dist, index);
    ghost var col := dist[..];
    ModifiedInsertionSort(dist, index, refNb, k);
    assert IsStableTopK(col, index[..k], k) && dist[..k] == Gather(col, index[..k]);
    CopyOut(dist, index, k, queryNb, i, knnDist, knnIndex);
  }

  /** knn_c: with both scratch arrays allocated (allocOk), every column i of
      the k-by-queryNb outputs answers query point i and the result is true;
      when an allocation fails the result is false and nothing is written. */
  method KnnC(ref: array<int>, refNb: nat, query: array<int>, queryNb: nat, dim: nat, k: nat,
              knnDist: array<int>, knnIndex: array<int>, root: int -> int, allocOk: bool)
    returns (ok: bool)
    requires 1 <= k <= refNb
    requires ref.Length == dim * refNb && query.Length == dim * queryNb
    requires knnDist.Length == k * queryNb && knnIndex.Length == k * queryNb
    requires knnDist != knnIndex && knnDist != ref && knnDist != query && knnIndex != ref && knnIndex != query
    modifies knnDist, knnIndex
    ensures ok == allocOk
    ensures !ok ==> knnDist[..] == old(knnDist[..]) && knnIndex[..] == old(knnIndex[..])
    ensures ok ==> forall i :: 0 <= i < queryNb ==>
      Answered(ref[..], refNb, query[..], queryNb, dim, k, root, knnDist[..], knnIndex[..], i)
  {
    var dist := new int[refNb];
    var index := new int[refNb];
    if !allocOk {
      return false;
    }
    for i := 0 to queryNb
      invariant forall i' :: 0 <= i' < i ==>
        Answered(ref[..], refNb, query[..], queryNb, dim, k, root, knnDist[..], knnIndex[..], i')
    {
      ghost var E, F := knnDist[..], knnIndex[..];
      AnswerQuery(ref, refNb, query, queryNb, dim, k, i, root, dist, index, knnDist, knnIndex);
      forall i' | 0 <= i' < i
        ensures Answered(ref[..], refNb, query[..], queryNb, dim, k, root, knnDist[..], knnIndex[..], i')
      {
        AnsweredKept(ref[..], refNb, query[..], queryNb, dim, k, root, E, F, knnDist[..], knnIndex[..], i, i');
      }
    }
    ok := true;
  }
}
