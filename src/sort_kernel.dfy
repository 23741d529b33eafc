/** The selection kernel cuInsertionSort: one work-item per column of the
    row-major distance matrix (height rows, width columns) gathers the k
    smallest distances of its column, in stable order, into rows 0..k-1, and
    their row numbers into the same column of the index matrix. */
module SortKernel {
  import opened Layout
  import opened Selection
  import opened Window

  /** The left-to-right scan of the kernel over column x (whose entries are
      D): the first row among 0..last-1 whose distance is strictly greater
      than v, or last if none is. */
  method ScanSlot(dist: array<int>, width: nat, height: nat, x: nat, last: nat, v: int, ghost D: seq<int>)
    returns (i: nat)
    requires x < width && last < height && dist.Length == height * width
    requires D == Column(dist[..], width, x, height)
    ensures i <= last
    ensures forall a :: 0 <= a < i ==> D[a] <= v
    ensures i < last ==> D[i] > v
  {
    i := last;
    for a := 0 to last
      invariant i == last
      invariant forall b :: 0 <= b < a ==> D[b] <= v
    {
      CellInColumn(dist, height, width, a, x);
      if Cell(dist, height, width, a, x) > v {
        i := a;
        break;
      }
    }
  }

  /** The shift of the kernel: rows i..top-1 of column x move one row down,
      in both matrices, overwriting row top; nothing outside column x
      changes. */
  method ShiftDown(dist: array<int>, ind: array<int>, width: nat, height: nat, k: nat, x: nat, top: nat, i: nat)
    requires x < width && i <= top < k <= height && dist != ind
    requires dist.Length == height * width && ind.Length == k * width
    modifies dist, ind
    ensures Column(dist[..], width, x, height) == Shifted(old(Column(dist[..], width, x, height)), i, top)
    ensures Column(ind[..], width, x, k) == Shifted(old(Column(ind[..], width, x, k)), i, top)
    ensures OnlyColumnChanged(dist[..], old(dist[..]), width, x)
    ensures OnlyColumnChanged(ind[..], old(ind[..]), width, x)
  {
    ghost var D0, I0 := Column(dist[..], width, x, height), Column(ind[..], width, x, k);
    var j := top;
    while j > i
      invariant i <= j <= top
      invariant Column(dist[..], width, x, height) == Shifted(D0, j, top)
      invariant Column(ind[..], width, x, k) == Shifted(I0, j, top)
      invariant OnlyColumnChanged(dist[..], old(dist[..]), width, x)
      invariant OnlyColumnChanged(ind[..], old(ind[..]), width, x)
    {
      ghost var D, I := dist[..], ind[..];
      CellInColumn(dist, height, width, j - 1, x);
      CellInColumn(ind, k, width, j - 1, x);
      var d := Cell(dist, height, width, j - 1, x);
      var n := Cell(ind, k, width, j - 1, x);
      ShiftedStep(D0, j, top);
      ShiftedStep(I0, j, top);
      ColumnUpdate(D, width, x, height, j, d);
      ColumnUpdate(I, width, x, k, j, n);
      dist[Offset(j, width, x)] := d;
      ind[Offset(j, width, x)] := n;
      assert dist[..] == D[Offset(j, width, x) := d];
      assert ind[..] == I[Offset(j, width, x) := n];
      OnlyColumnChangedTrans(dist[..], D, old(dist[..]), width, x);
      OnlyColumnChangedTrans(ind[..], I, old(ind[..]), width, x);
      j := j - 1;
    }
  }

  /** The insertion of the kernel: shift rows i..top-1 of column x one row
      down and write distance v and row number l at row i. */
  method ShiftAndPlace(dist: array<int>, ind: array<int>, width: nat, height: nat, k: nat, x: nat, top: nat, i: nat, v: int, l: int,
                       ghost D: seq<int>, ghost I: seq<int>, ghost D': seq<int>, ghost I': seq<int>)
    requires x < width && i <= top < k <= height && dist != ind
    requires dist.Length == height * width && ind.Length == k * width
    requires D == Column(dist[..], width, x, height) && I == Column(ind[..], width, x, k)
    requires D' == Shifted(D, i, top)[i := v] && I' == Shifted(I, i, top)[i := l]
    modifies dist, ind
    ensures Column(dist[..], width, x, height) == D'
    ensures Column(ind[..], width, x, k) == I'
    ensures OnlyColumnChanged(dist[..], old(dist[..]), width, x)
    ensures OnlyColumnChanged(ind[..], old(ind[..]), width, x)
  {
    ShiftDown(dist, ind, width, height, k, x, top, i);
    ghost var D, I := dist[..], ind[..];
    ColumnUpdate(D, width, x, height, i, v);
    ColumnUpdate(I, width, x, k, i, l);
    dist[Offset(i, width, x)] := v;
    ind[Offset(i, width, x)] := l;
    assert dist[..] == D[Offset(i, width, x) := v];
    assert ind[..] == I[Offset(i, width, x) := l];
    OnlyColumnChangedTrans(dist[..], D, old(dist[..]), width, x);
    OnlyColumnChangedTrans(ind[..], I, old(ind[..]), width, x);
  }

  /** The insertion branch of part 1: row l, whose distance is below the
      last of the window of rows 0..l-1, goes in at the slot i the scan
      finds (behind every slot whose distance is not greater) and the rows
      behind it move down. */
  method PlaceFirstRow(dist: array<int>, ind: array<int>, width: nat, height: nat, k: nat, x: nat,
                       l: nat, currDist: int, ghost col: seq<int>, ghost w: seq<int>)
    returns (i: nat)
    requires x < width && 1 <= l < k <= height && dist != ind && |col| == height
    requires dist.Length == height * width && ind.Length == k * width
    requires |w| == l && forall a :: 0 <= a < l ==> 0 <= w[a] < |col|
    requires Column(dist[..], width, x, height) == Gather(col, w) + col[l..]
    requires Column(ind[..], width, x, k)[..l] == w
    requires currDist == col[l] < col[w[l - 1]]
    modifies dist, ind
    ensures i < l
    ensures forall a :: 0 <= a < i ==> col[w[a]] <= col[l]
    ensures col[w[i]] > col[l]
    ensures Column(dist[..], width, x, height) == Gather(col, InsertAt(w, i, l)) + col[l + 1..]
    ensures Column(ind[..], width, x, k)[..l + 1] == InsertAt(w, i, l)
    ensures OnlyColumnChanged(dist[..], old(dist[..]), width, x)
    ensures OnlyColumnChanged(ind[..], old(ind[..]), width, x)
  {
    ghost var D, I := Column(dist[..], width, x, height), Column(ind[..], width, x, k);
    i := ScanSlot(dist, width, height, x, l - 1, currDist, D);
    assert forall a :: 0 <= a < l ==> D[a] == col[w[a]];
    FirstRowsInsert(col, w, l, i, currDist, D, I);
    ShiftAndPlace(dist, ind, width, height, k, x, l, i, currDist, l, D, I,
                  Gather(col, InsertAt(w, i, l)) + col[l + 1..], Shifted(I, i, l)[i := l]);
  }

  /** The other branch of part 1: row l, whose distance is not below the
      last of the window, stays where it is and its row number is written
      behind the window. */
  method AppendFirstRow(dist: array<int>, ind: array<int>, width: nat, height: nat, k: nat, x: nat,
                        l: nat, ghost col: seq<int>, ghost w: seq<int>)
    requires x < width && 1 <= l < k <= height && dist != ind && |col| == height
    requires dist.Length == height * width && ind.Length == k * width
    requires |w| == l && forall a :: 0 <= a < l ==> 0 <= w[a] < |col|
    requires Column(dist[..], width, x, height) == Gather(col, w) + col[l..]
    requires Column(ind[..], width, x, k)[..l] == w
    modifies ind
    ensures Column(dist[..], width, x, height) == Gather(col, InsertAt(w, l, l)) + col[l + 1..]
    ensures Column(ind[..], width, x, k)[..l + 1] == InsertAt(w, l, l)
    ensures OnlyColumnChanged(ind[..], old(ind[..]), width, x)
  {
    ghost var D, I := Column(dist[..], width, x, height), Column(ind[..], width, x, k);
    FirstRowsAppend(col, w, l, D, I);
    ghost var I1 := ind[..];
    ColumnUpdate(I1, width, x, k, l, l);
    ind[Offset(l, width, x)] := l;
    assert ind[..] == I1[Offset(l, width, x) := l];
  }

  /** One iteration of part 1: row l (0 < l < k) joins the window of rows
      0..l-1. If its distance is below maxDist, the last of the window, the
      scan finds its slot and the rows behind it move down; otherwise it is
      appended. maxDist becomes the distance now in row l. */
  method InsertFirstRow(dist: array<int>, ind: array<int>, width: nat, height: nat, k: nat, x: nat,
                        l: nat, maxDist: int, ghost col: seq<int>, ghost w: seq<int>)
    returns (maxDist': int, ghost w': seq<int>)
    requires x < width && 1 <= l < k <= height && dist != ind && |col| == height
    requires dist.Length == height * width && ind.Length == k * width
    requires IsStableTopK(col[..l], w, l)
    requires forall r :: 0 <= r < l ==> r in w
    requires Column(dist[..], width, x, height) == Gather(col, w) + col[l..]
    requires Column(ind[..], width, x, k)[..l] == w
    requires maxDist == col[w[l - 1]]
    modifies dist, ind
    ensures IsStableTopK(col[..l + 1], w', l + 1)
    ensures forall r :: 0 <= r < l + 1 ==> r in w'
    ensures Column(dist[..], width, x, height) == Gather(col, w') + col[l + 1..]
    ensures Column(ind[..], width, x, k)[..l + 1] == w'
    ensures maxDist' == col[w'[l]]
    ensures OnlyColumnChanged(dist[..], old(dist[..]), width, x)
    ensures OnlyColumnChanged(ind[..], old(ind[..]), width, x)
  {
    CellInColumn(dist, height, width, l, x);
    var currDist := Cell(dist, height, width, l, x);
    assert currDist == col[l];
    if currDist < maxDist {
      var i := PlaceFirstRow(dist, ind, width, height, k, x, l, currDist, col, w);
      ScanInsert(col, w, l, l, i);
      w' := InsertAt(w, i, l);
    } else {
      ScanAppend(col, w, l);
      AppendFirstRow(dist, ind, width, height, k, x, l, col, w);
      w' := InsertAt(w, l, l);
    }
    CellInColumn(dist, height, width, l, x);
    maxDist' := Cell(dist, height, width, l, x);
  }

  /** The start of the kernel's work-item: row 0 alone forms the window, and
      maxDist is its distance. */
  method StartWindow(dist: array<int>, ind: array<int>, width: nat, height: nat, k: nat, x: nat, ghost col: seq<int>)
    returns (maxDist: int, ghost w: seq<int>)
    requires x < width && 1 <= k <= height && dist != ind
    requires dist.Length == height * width && ind.Length == k * width
    requires col == Column(dist[..], width, x, height)
    modifies ind
    ensures IsStableTopK(col[..1], w, 1)
    ensures forall r :: 0 <= r < 1 ==> r in w
    ensures Column(dist[..], width, x, height) == Gather(col, w) + col[1..]
    ensures Column(ind[..], width, x, k)[..1] == w
    ensures maxDist == col[w[0]]
    ensures OnlyColumnChanged(ind[..], old(ind[..]), width, x)
  {
    CellInColumn(dist, height, width, 0, x);
    maxDist := Cell(dist, height, width, 0, x);
    ghost var I0 := ind[..];
    ColumnUpdate(I0, width, x, k, 0, 0);
    ind[Offset(0, width, x)] := 0;
    assert ind[..] == I0[Offset(0, width, x) := 0];
    w := [0];
    TopKFirst(col);
    assert col == Gather(col, w) + col[1..];
  }

  /** Part 1 of the kernel: row 0 starts the window, then rows 1..k-1 are
      inserted one by one, each behind every row whose distance is not
      greater than its own. Afterwards column x of the distance matrix holds
      the stable top-k of rows 0..k-1 followed by the untouched rows, the
      index column holds their row numbers, and maxDist is the k-th
      distance. */
  method SortFirstRows(dist: array<int>, ind: array<int>, width: nat, height: nat, k: nat, x: nat, ghost col: seq<int>)
    returns (maxDist: int, ghost w: seq<int>)
    requires x < width && 1 <= k <= height && dist != ind
    requires dist.Length == height * width && ind.Length == k * width
    requires col == Column(dist[..], width, x, height)
    modifies dist, ind
    ensures IsStableTopK(col[..k], w, k)
    ensures Column(dist[..], width, x, height) == Gather(col, w) + col[k..]
    ensures Column(ind[..], width, x, k) == w
    ensures maxDist == col[w[k - 1]]
    ensures OnlyColumnChanged(dist[..], old(dist[..]), width, x)
    ensures OnlyColumnChanged(ind[..], old(ind[..]), width, x)
  {
    maxDist, w := StartWindow(dist, ind, width, height, k, x, col);
    for l := 1 to k
      invariant IsStableTopK(col[..l], w, l)
      invariant forall r :: 0 <= r < l ==> r in w
      invariant Column(dist[..], width, x, height) == Gather(col, w) + col[l..]
      invariant Column(ind[..], width, x, k)[..l] == w
      invariant maxDist == col[w[l - 1]]
      invariant OnlyColumnChanged(dist[..], old(dist[..]), width, x)
      invariant OnlyColumnChanged(ind[..], old(ind[..]), width, x)
    {
      ghost var D, I := dist[..], ind[..];
      maxDist, w := InsertFirstRow(dist, ind, width, height, k, x, l, maxDist, col, w);
      OnlyColumnChangedTrans(dist[..], D, old(dist[..]), width, x);
      OnlyColumnChangedTrans(ind[..], I, old(ind[..]), width, x);
    }
    assert Column(ind[..], width, x, k)[..k] == Column(ind[..], width, x, k);
  }

  /** The insertion branch of part 2: row l, whose distance is below the
      k-th, goes in at the slot i the scan finds (behind every slot whose
      distance is not greater), the rows behind it move down and the old
      k-th drops out. */
  method ReplaceLaterRow(dist: array<int>, ind: array<int>, width: nat, height: nat, k: nat, x: nat,
                         l: nat, currDist: int, ghost col: seq<int>, ghost w: seq<int>)
    returns (i: nat)
    requires x < width && 1 <= k <= l < height && dist != ind && |col| == height
    requires dist.Length == height * width && ind.Length == k * width
    requires |w| == k && forall a :: 0 <= a < k ==> 0 <= w[a] < |col|
    requires Column(dist[..], width, x, height) == Gather(col, w) + col[k..]
    requires Column(ind[..], width, x, k) == w
    requires currDist == col[l] < col[w[k - 1]]
    modifies dist, ind
    ensures i < k
    ensures forall a :: 0 <= a < i ==> col[w[a]] <= col[l]
    ensures col[w[i]] > col[l]
    ensures Column(dist[..], width, x, height) == Gather(col, InsertAt(w, i, l)[..k]) + col[k..]
    ensures Column(ind[..], width, x, k) == InsertAt(w, i, l)[..k]
    ensures OnlyColumnChanged(dist[..], old(dist[..]), width, x)
    ensures OnlyColumnChanged(ind[..], old(ind[..]), width, x)
  {
    ghost var D, I := Column(dist[..], width, x, height), Column(ind[..], width, x, k);
    i := ScanSlot(dist, width, height, x, k - 1, currDist, D);
    assert forall a :: 0 <= a < k ==> D[a] == col[w[a]];
    assert I[..k] == w;
    LaterRowsInsert(col, w, k, l, i, currDist, D, I);
    ghost var I' := Shifted(I, i, k - 1)[i := l];
    assert I'[..k] == I';
    ShiftAndPlace(dist, ind, width, height, k, x, k - 1, i, currDist, l, D, I,
                  Gather(col, InsertAt(w, i, l)[..k]) + col[k..], I');
  }

  /** One iteration of part 2: row l (k <= l) competes for the window. If
      its distance is below maxDist, the k-th so far, it replaces the k-th;
      otherwise nothing changes. */
  method InsertLaterRow(dist: array<int>, ind: array<int>, width: nat, height: nat, k: nat, x: nat,
                        l: nat, maxDist: int, ghost col: seq<int>, ghost w: seq<int>)
    returns (maxDist': int, ghost w': seq<int>)
    requires x < width && 1 <= k <= l < height && dist != ind && |col| == height
    requires dist.Length == height * width && ind.Length == k * width
    requires IsStableTopK(col[..l], w, k)
    requires Column(dist[..], width, x, height) == Gather(col, w) + col[k..]
    requires Column(ind[..], width, x, k) == w
    requires maxDist == col[w[k - 1]]
    modifies dist, ind
    ensures IsStableTopK(col[..l + 1], w', k)
    ensures Column(dist[..], width, x, height) == Gather(col, w') + col[k..]
    ensures Column(ind[..], width, x, k) == w'
    ensures maxDist' == col[w'[k - 1]]
    ensures OnlyColumnChanged(dist[..], old(dist[..]), width, x)
    ensures OnlyColumnChanged(ind[..], old(ind[..]), width, x)
  {
    var maxRow := k - 1;
    CellInColumn(dist, height, width, l, x);
    var currDist := Cell(dist, height, width, l, x);
    assert currDist == col[l];
    if currDist < maxDist {
      var i := ReplaceLaterRow(dist, ind, width, height, k, x, l, currDist, col, w);
      ScanReplace(col, w, l, k, i);
      w' := InsertAt(w, i, l)[..k];
      CellInColumn(dist, height, width, maxRow, x);
      maxDist' := Cell(dist, height, width, maxRow, x);
    } else {
      TopKSkip(col, w, l, k);
      maxDist', w' := maxDist, w;
    }
  }

  /** Part 2 of the kernel: rows k..height-1 compete for the window in
      turn. Afterwards the window is the stable top-k of the whole
      column. */
  method InsertLaterRows(dist: array<int>, ind: array<int>, width: nat, height: nat, k: nat, x: nat,
                         maxDist0: int, ghost col: seq<int>, ghost w0: seq<int>)
    returns (ghost w: seq<int>)
    requires x < width && 1 <= k <= height && dist != ind && |col| == height
    requires dist.Length == height * width && ind.Length == k * width
    requires IsStableTopK(col[..k], w0, k)
    requires Column(dist[..], width, x, height) == Gather(col, w0) + col[k..]
    requires Column(ind[..], width, x, k) == w0
    requires maxDist0 == col[w0[k - 1]]
    modifies dist, ind
    ensures IsStableTopK(col, w, k)
    ensures Column(dist[..], width, x, height) == Gather(col, w) + col[k..]
    ensures Column(ind[..], width, x, k) == w
    ensures OnlyColumnChanged(dist[..], old(dist[..]), width, x)
    ensures OnlyColumnChanged(ind[..], old(ind[..]), width, x)
  {
    var maxDist := maxDist0;
    w := w0;
    for l := k to height
      invariant IsStableTopK(col[..l], w, k)
      invariant Column(dist[..], width, x, height) == Gather(col, w) + col[k..]
      invariant Column(ind[..], width, x, k) == w
      invariant maxDist == col[w[k - 1]]
      invariant OnlyColumnChanged(dist[..], old(dist[..]), width, x)
      invariant OnlyColumnChanged(ind[..], old(ind[..]), width, x)
    {
      ghost var D, I := dist[..], ind[..];
      maxDist, w := InsertLaterRow(dist, ind, width, height, k, x, l, maxDist, col, w);
      OnlyColumnChangedTrans(dist[..], D, old(dist[..]), width, x);
      OnlyColumnChangedTrans(ind[..], I, old(ind[..]), width, x);
    }
    TopKAllRows(col, w, k);
  }

  /** One work-item of cuInsertionSort, for column xIndex. Work-items past the
      last column change nothing. Otherwise, afterwards rows 0..k-1 of the
      column hold the stable top-k of the column's original distances, and the
      same rows of the index matrix hold their original row numbers; rows k and
      beyond of the column keep their values, and no other column of either
      matrix changes. */
  method InsertionSort(dist: array<int>, ind: array<int>, width: nat, height: nat, k: nat, xIndex: nat)
    requires 1 <= k <= height && dist != ind
    requires dist.Length == height * width && ind.Length == k * width
    modifies dist, ind
    ensures xIndex >= width ==> dist[..] == old(dist[..]) && ind[..] == old(ind[..])
    ensures xIndex < width ==>
      IsStableTopK(Column(old(dist[..]), width, xIndex, height), Column(ind[..], width, xIndex, k), k)
    ensures xIndex < width ==>
      Column(dist[..], width, xIndex, height)[..k] ==
      Gather(Column(old(dist[..]), width, xIndex, height), Column(ind[..], width, xIndex, k))
    ensures xIndex < width ==>
      Column(dist[..], width, xIndex, height)[k..] == Column(old(dist[..]), width, xIndex, height)[k..]
    ensures xIndex < width ==> OnlyColumnChanged(dist[..], old(dist[..]), width, xIndex)
    ensures xIndex < width ==> OnlyColumnChanged(ind[..], old(ind[..]), width, xIndex)
  {
    if xIndex < width {
      var x := xIndex;
      ghost var col := Column(dist[..], width, x, height);
      var maxDist, w := SortFirstRows(dist, ind, width, height, k, x, col);
      w := InsertLaterRows(dist, ind, width, height, k, x, maxDist, col, w);
    }
  }
}
