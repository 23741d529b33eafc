/** The sequential ground truth of knn-dpct: compute_distance,
    modified_insertion_sort and knn_c. For each query point, knn_c fills a
    scratch array with the (rooted) distances to every reference point and
    their row numbers, selects the k nearest with a contiguous top-k
    insertion sort, and scatters them into column i of the k-by-queryNb
    outputs. */
module Oracle {
  import opened Layout
  import opened Distance
  import opened Selection
  import opened Window

  /** The flat read d * w + i of a dimension-major set is coordinate d of
      point i. */
  lemma FlatRead(P: seq<int>, w: nat, dim: nat, i: nat, d: nat, u: seq<int>)
    requires Coordinates(u, P, w, dim, i) && d < dim
    ensures 0 <= d * w + i < |P| && P[d * w + i] == u[d]
  {
    OffsetFormula(d, w, i);
  }

  /** compute_distance: root of the sum over the dimension of the squared
      coordinate differences between reference point refIndex and query
      point queryIndex. */
  method ComputeDistance(ref: array<int>, refNb: nat, query: array<int>, queryNb: nat, dim: nat,
                         refIndex: nat, queryIndex: nat, root: int -> int)
    returns (d: int)
    requires ref.Length == dim * refNb && query.Length == dim * queryNb
    requires refIndex < refNb && queryIndex < queryNb
    ensures d == root(SqDist(Point(ref[..], refNb, dim, refIndex), Point(query[..], queryNb, dim, queryIndex)))
  {
    ghost var u, v := Point(ref[..], refNb, dim, refIndex), Point(query[..], queryNb, dim, queryIndex);
    var sum := 0;
    for dd := 0 to dim
      invariant sum == PartialSqDist(u, v, dd)
    {
      FlatRead(ref[..], refNb, dim, refIndex, dd, u);
      FlatRead(query[..], queryNb, dim, queryIndex, dd, v);
      var diff := ref[dd * refNb + refIndex] - query[dd * queryNb + queryIndex];
      sum := sum + diff * diff;
    }
    PartialSqDistPrefix(u, v, dim);
    d := root(sum);
  }

  /** The shift loop of modified_insertion_sort: starting at slot top, the
      entries of slots j-1 move one slot down while they are strictly
      greater than v. The loop stops at the first slot j (from the right)
      whose left neighbour is not greater than v, or at 0. */
  method ShiftWhileGreater(dist: array<int>, index: array<int>, top: nat, v: int) returns (j: nat)
    requires top < dist.Length == index.Length && dist != index
    modifies dist, index
    ensures j <= top
    ensures dist[..] == Shifted(old(dist[..]), j, top) && index[..] == Shifted(old(index[..]), j, top)
    ensures forall a :: j <= a < top ==> old(dist[..])[a] > v
    ensures 0 < j ==> old(dist[..])[j - 1] <= v
  {
    ghost var D0, I0 := dist[..], index[..];
    j := top;
    assert dist[..] == Shifted(D0, j, top);
    while j > 0 && dist[j - 1] > v
      invariant j <= top
      invariant dist[..] == Shifted(D0, j, top) && index[..] == Shifted(I0, j, top)
      invariant forall a :: j <= a < top ==> D0[a] > v
    {
      ShiftedStep(D0, j, top);
      assert D0[j - 1] > v;
      ShiftOne(dist, index, j, top, D0, I0);
      j := j - 1;
    }
  }

  /** One step of the shift loop: dist[j] = dist[j - 1], index[j] =
      index[j - 1]. */
  method ShiftOne(dist: array<int>, index: array<int>, j: nat, top: nat, ghost D0: seq<int>, ghost I0: seq<int>)
    requires 0 < j <= top < dist.Length == index.Length == |D0| == |I0| && dist != index
    requires dist[..] == Shifted(D0, j, top) && index[..] == Shifted(I0, j, top)
    modifies dist, index
    ensures dist[..] == Shifted(D0, j - 1, top) && index[..] == Shifted(I0, j - 1, top)
  {
    ShiftedStep(D0, j, top);
    ShiftedStep(I0, j, top);
    ghost var D, I := dist[..], index[..];
    dist[j] := dist[j - 1];
    index[j] := index[j - 1];
    assert dist[..] == D[j := D0[j - 1]] && index[..] == I[j := I0[j - 1]];
  }

  /** The writes dist[j] = currDist, index[j] = currIndex that end an
      iteration. */
  method Place(dist: array<int>, index: array<int>, j: nat, v: int, l: int)
    requires j < dist.Length == index.Length && dist != index
    modifies dist, index
    ensures dist[..] == old(dist[..])[j := v] && index[..] == old(index[..])[j := l]
  {
    dist[j] := v;
    index[j] := l;
  }

  /** On a window whose values ascend, stopping behind slot j-1 (value not
      greater than row l's) means every slot before j holds a value not
      greater than row l's: the right-to-left shift and the left-to-right
      scan of the kernel stop at the same slot. */
  lemma ShiftStop(col: seq<int>, w: seq<int>, l: nat, m: nat, j: nat)
    requires l < |col| && j <= m && IsStableTopK(col[..l], w, m)
    requires 0 < j ==> col[w[j - 1]] <= col[l]
    ensures forall a :: 0 <= a < j ==> col[w[a]] <= col[l]
  {
    forall a | 0 <= a < j - 1
      ensures col[w[a]] <= col[l]
    {
      assert Before(col[..l], w[a], w[j - 1]);
    }
  }

  /** One iteration i of modified_insertion_sort before k: row i joins the
      window of rows 0..i-1 at the slot where the shift stops. */
  method InsertBeforeK(dist: array<int>, index: array<int>, length: nat, k: nat, i: nat,
                       ghost col: seq<int>, ghost w: seq<int>)
    returns (ghost w': seq<int>)
    requires 1 <= i < k && i < length && dist.Length == length && index.Length == length && dist != index
    requires |col| == length && IsStableTopK(col[..i], w, i)
    requires forall r :: 0 <= r < i ==> r in w
    requires dist[..] == Gather(col, w) + col[i..] && index[..i] == w
    modifies dist, index
    ensures IsStableTopK(col[..i + 1], w', i + 1)
    ensures forall r :: 0 <= r < i + 1 ==> r in w'
    ensures dist[..] == Gather(col, w') + col[i + 1..] && index[..i + 1] == w'
    ensures index[i + 1..] == old(index[..])[i + 1..]
  {
    ghost var D, I := dist[..], index[..];
    var currDist := dist[i];
    var currIndex := i;
    assert currDist == col[i];
    var j := ShiftWhileGreater(dist, index, i, currDist);
    Place(dist, index, j, currDist, currIndex);
    assert dist[..] == Shifted(D, j, i)[j := currDist];
    assert index[..] == Shifted(I, j, i)[j := i];
    assert forall a :: 0 <= a < i ==> D[a] == col[w[a]];
    ShiftStop(col, w, i, i, j);
    FirstRowsInsert(col, w, i, j, currDist, D, I);
    if j < i {
      ScanInsert(col, w, i, i, j);
    } else {
      ScanAppend(col, w, i);
    }
    w' := InsertAt(w, j, i);
  }

  /** One iteration i >= k of modified_insertion_sort: row i is skipped
      when not below the k-th; otherwise it goes in where the shift stops
      and the k-th drops out. */
  method InsertFromK(dist: array<int>, index: array<int>, length: nat, k: nat, i: nat,
                     ghost col: seq<int>, ghost w: seq<int>)
    returns (ghost w': seq<int>)
    requires 1 <= k <= i < length && dist.Length == length && index.Length == length && dist != index
    requires |col| == length && IsStableTopK(col[..i], w, k)
    requires dist[..] == Gather(col, w) + col[k..] && index[..k] == w
    modifies dist, index
    ensures IsStableTopK(col[..i + 1], w', k)
    ensures dist[..] == Gather(col, w') + col[k..] && index[..k] == w'
    ensures index[k..] == old(index[..])[k..]
    ensures col[i] >= col[w[k - 1]] ==> dist[..] == old(dist[..]) && index[..] == old(index[..])
  {
    ghost var D, I := dist[..], index[..];
    var currDist := dist[i];
    var currIndex := i;
    assert currDist == col[i];
    if currDist >= dist[k - 1] {
      TopKSkip(col, w, i, k);
      w' := w;
      return;
    }
    var j := ShiftWhileGreater(dist, index, k - 1, currDist);
    Place(dist, index, j, currDist, currIndex);
    assert dist[..] == Shifted(D, j, k - 1)[j := currDist];
    assert index[..] == Shifted(I, j, k - 1)[j := i];
    assert forall a :: 0 <= a < k ==> D[a] == col[w[a]];
    ShiftStop(col, w, i, k, j);
    LaterRowsInsert(col, w, k, i, j, currDist, D, I);
    ScanReplace(col, w, i, k, j);
    w' := InsertAt(w, j, i)[..k];
  }

  /** The state of modified_insertion_sort before iteration i, for the
      original array col: with m = min(i, k), index[..m] is the stable top-m
      of rows 0..i-1 (all of them while i < k), dist holds their values
      followed by the untouched rest of col, and index is untouched from m
      on. */
  ghost predicate Progress(col: seq<int>, D: seq<int>, I: seq<int>, I0: seq<int>, k: nat, i: nat, w: seq<int>)
    requires i <= |col| && |I| == |I0| == |col|
  {
    var m := if i < k then i else k;
    && IsStableTopK(col[..i], w, m)
    && (i < k ==> forall r :: 0 <= r < i ==> r in w)
    && D == Gather(col, w) + col[m..] && I[..m] == w && I[m..] == I0[m..]
  }

  /** Iteration i of modified_insertion_sort. */
  method InsertionStep(dist: array<int>, index: array<int>, length: nat, k: nat, i: nat,
                       ghost col: seq<int>, ghost I0: seq<int>, ghost w: seq<int>)
    returns (ghost w': seq<int>)
    requires 1 <= k && 1 <= i < length && dist.Length == length && index.Length == length && dist != index
    requires |col| == |I0| == length && Progress(col, dist[..], index[..], I0, k, i, w)
    modifies dist, index
    ensures Progress(col, dist[..], index[..], I0, k, i + 1, w')
  {
    if i < k {
      w' := InsertBeforeK(dist, index, length, k, i, col, w);
    } else {
      w' := InsertFromK(dist, index, length, k, i, col, w);
    }
  }

  /** modified_insertion_sort: afterwards the first m = min(k, length) slots
      of dist hold the stable top-m of the original array and index their
      original positions; slots from m on are untouched in both arrays. */
  method ModifiedInsertionSort(dist: array<int>, index: array<int>, length: nat, k: nat)
    requires 1 <= length && 1 <= k && dist.Length == length && index.Length == length && dist != index
    modifies dist, index
    ensures var m := if k < length then k else length;
      IsStableTopK(old(dist[..]), index[..m], m) &&
      dist[..m] == Gather(old(dist[..]), index[..m]) &&
      dist[m..] == old(dist[..])[m..] && index[m..] == old(index[..])[m..]
  {
    ghost var col := dist[..];
    ghost var I0 := index[..];
    index[0] := 0;
    ghost var w := [0];
    TopKFirst(col);
    assert col == Gather(col, w) + col[1..];
    for i := 1 to length
      invariant Progress(col, dist[..], index[..], I0, k, i, w)
    {
      w := InsertionStep(dist, index, length, k, i, col, I0, w);
    }
    TopKAllRows(col, w, if k < length then k else length);
  }
}
