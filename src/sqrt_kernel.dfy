/** The kernel cuParallelSqrt: work-item (xIndex, yIndex) replaces cell
    (yIndex, xIndex) of the row-major distance matrix by its square root,
    for the first k rows only. The square root is the parameter root. */
module SqrtKernel {
  import opened Layout

  /** Two cells of one matrix coincide only when their rows and columns do. */
  lemma OffsetInjective(r: nat, c: nat, y: nat, x: nat, width: nat)
    requires c < width && x < width
    ensures Offset(r, width, c) == Offset(y, width, x) <==> r == y && c == x
  {
    OffsetRowCol(r, width, c);
    OffsetRowCol(y, width, x);
  }

  /** One work-item: in range it rewrites its own cell, out of range it
      writes nothing; no other cell changes. */
  method ParallelSqrt(dist: array<int>, width: nat, height: nat, k: nat, root: int -> int, xIndex: nat, yIndex: nat)
    requires k <= height && dist.Length == height * width
    modifies dist
    ensures xIndex < width && yIndex < k ==>
      Offset(yIndex, width, xIndex) < dist.Length &&
      dist[..] == old(dist[..])[Offset(yIndex, width, xIndex) := root(old(dist[Offset(yIndex, width, xIndex)]))]
    ensures !(xIndex < width && yIndex < k) ==> dist[..] == old(dist[..])
  {
    if xIndex < width && yIndex < k {
      OffsetFormula(yIndex, width, xIndex);
      OffsetBelow(yIndex, height, width, xIndex);
      dist[yIndex * width + xIndex] := root(dist[yIndex * width + xIndex]);
    }
  }

  /** Every cell (r, c) of the height-by-width matrix holds root of its old
      value if r < y, or r == y and c < x, and its old value otherwise. */
  ghost predicate RootedBefore(s: seq<int>, s0: seq<int>, width: nat, height: nat, root: int -> int, y: nat, x: nat)
    requires |s| == |s0| == height * width
  {
    forall r, c {:trigger Offset(r, width, c)} :: 0 <= r < height && 0 <= c < width ==>
      Offset(r, width, c) < |s| &&
      s[Offset(r, width, c)] == if r < y || (r == y && c < x) then root(s0[Offset(r, width, c)]) else s0[Offset(r, width, c)]
  }

  /** Running work-item (x, y) after every work-item before it in row order
      extends the rooted region by cell (y, x). */
  lemma RootOneMore(s: seq<int>, s0: seq<int>, width: nat, height: nat, root: int -> int, y: nat, x: nat)
    requires |s| == |s0| == height * width && y < height && x < width
    requires RootedBefore(s, s0, width, height, root, y, x)
    ensures Offset(y, width, x) < |s|
    ensures RootedBefore(s[Offset(y, width, x) := root(s[Offset(y, width, x)])], s0, width, height, root, y, x + 1)
  {
    OffsetBelow(y, height, width, x);
    var s' := s[Offset(y, width, x) := root(s[Offset(y, width, x)])];
    forall r, c | 0 <= r < height && 0 <= c < width
      ensures Offset(r, width, c) < |s'| &&
        s'[Offset(r, width, c)] == if r < y || (r == y && c < x + 1) then root(s0[Offset(r, width, c)]) else s0[Offset(r, width, c)]
    {
      OffsetBelow(r, height, width, c);
      OffsetInjective(r, c, y, x, width);
    }
  }

  /** The whole launch: work-items (x, y) for every column x < width and
      every row y < k, one after another (they write disjoint cells, so the
      order does not matter). Afterwards exactly the cells of rows 0..k-1
      hold the root of their old values; rows k and beyond are unchanged. */
  method ParallelSqrtAll(dist: array<int>, width: nat, height: nat, k: nat, root: int -> int)
    requires k <= height && dist.Length == height * width
    modifies dist
    ensures forall r, c {:trigger Offset(r, width, c)} :: 0 <= r < height && 0 <= c < width ==>
      Offset(r, width, c) < dist.Length &&
      dist[Offset(r, width, c)] == if r < k then root(old(dist[Offset(r, width, c)])) else old(dist[Offset(r, width, c)])
  {
    ghost var s0 := dist[..];
    forall r, c | 0 <= r < height && 0 <= c < width
      ensures Offset(r, width, c) < |s0|
    {
      OffsetBelow(r, height, width, c);
    }
    for y := 0 to k
      invariant RootedBefore(dist[..], s0, width, height, root, y, 0)
    {
      for x := 0 to width
        invariant RootedBefore(dist[..], s0, width, height, root, y, x)
      {
        ghost var s := dist[..];
        RootOneMore(s, s0, width, height, root, y, x);
        ParallelSqrt(dist, width, height, k, root, x, y);
      }
      assert RootedBefore(dist[..], s0, width, height, root, y + 1, 0);
    }
    assert RootedBefore(dist[..], s0, width, height, root, k, 0);
  }
}
