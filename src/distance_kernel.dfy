/** The distance kernel cuComputeDistanceGlobal: work-item (tx, ty) of
    work-group (groupX, groupY) owns cell (r, q) = (BLOCK_DIM * groupY + ty,
    BLOCK_DIM * groupX + tx) of the reference-by-query matrix AB (wA rows, wB
    columns, row-major) and accumulates the squared distance between
    reference point r and query point q over the dimension, one chunk of
    BLOCK_DIM coordinates at a time. The shared tiles become the reads the
    owning work-item would make of A and B for that chunk. */
module DistanceKernel {
  import opened Layout
  import opened Distance

  const BLOCK_DIM: nat := 16

  /** Skipping a whole number of chunks of rows: chunk base plus kk rows. */
  lemma ChunkRow(base: nat, kk: nat, w: nat, i: nat)
    ensures Offset(base, w, i) + w * kk == Offset(base + kk, w, i)
  {
    OffsetFormula(base, w, i);
    OffsetFormula(base + kk, w, i);
    assert (base + kk) * w == base * w + kk * w;
  }

  /** The loop test a <= end_A holds exactly while the chunk starting at row
      base still lies inside the dimension. */
  lemma LoopTest(base: nat, wA: nat, beginA: nat, dim: nat)
    requires 0 < wA
    ensures Offset(base, wA, beginA) <= beginA + (dim - 1) * wA <==> base < dim
  {
    OffsetFormula(base, wA, beginA);
    if base < dim {
      MulMonoInt(base, dim - 1, wA);
    } else {
      MulMonoInt(dim, base, wA);
      assert dim * wA == (dim - 1) * wA + wA;
    }
  }

  /** The flat read of the tile loader, o + w * kk + t with o the chunk's
      first offset for start, is coordinate base + kk of point start + t. */
  lemma TileRead(P: seq<int>, w: nat, dim: nat, start: nat, t: nat, base: nat, kk: nat, o: nat, u: seq<int>)
    requires Coordinates(u, P, w, dim, start + t) && base + kk < dim && o == Offset(base, w, start)
    ensures 0 <= o + w * kk + t < |P| && P[o + w * kk + t] == u[base + kk]
  {
    ChunkRow(base, kk, w, start + t);
  }

  /** One accumulation step adds the square of the difference of the next
      coordinates. */
  lemma PartialStep(u: seq<int>, v: seq<int>, m: nat, tmp: int)
    requires m < |u| == |v| && tmp == u[m] - v[m]
    ensures PartialSqDist(u, v, m + 1) == PartialSqDist(u, v, m) + tmp * tmp
  {
  }

  /** Step kk of the inner loop of a chunk: the product of the tile entries
      shared_A[kk][ty] and shared_B[kk][tx] adds coordinate base + kk of the
      reference point u = beginA + ty and the query point v = beginB + tx,
      or nothing when that coordinate is past dim. */
  method AccumulateCoordinate(A: array<int>, wA: nat, B: array<int>, wB: nat, dim: nat,
                              a: nat, b: nat, beginA: nat, beginB: nat, tx: nat, ty: nat,
                              ssd: int, ghost base: nat, kk: nat, ghost u: seq<int>, ghost v: seq<int>)
    returns (ssd': int)
    requires Coordinates(u, A[..], wA, dim, beginA + ty) && Coordinates(v, B[..], wB, dim, beginB + tx)
    requires a == Offset(base, wA, beginA) && b == Offset(base, wB, beginB)
    requires ssd == PartialSqDist(u, v, if base + kk <= dim then base + kk else dim)
    ensures ssd' == PartialSqDist(u, v, if base + kk + 1 <= dim then base + kk + 1 else dim)
  {
    var sA := 0;
    var sB := 0;
    assert a / wA == base by {
      OffsetFormula(base, wA, beginA);
      DivModUnique(a, wA, base, beginA);
    }
    if a / wA + kk < dim {
      TileRead(A[..], wA, dim, beginA, ty, base, kk, a, u);
      TileRead(B[..], wB, dim, beginB, tx, base, kk, b, v);
      // shared_A[kk][ty], loaded by work-item (ty, kk) under its cond0
      sA := if beginA + ty < wA then A[a + wA * kk + ty] else 0;
      // shared_B[kk][tx], loaded by work-item (tx, kk) under its cond1
      sB := if beginB + tx < wB then B[b + wB * kk + tx] else 0;
    }
    var tmp := sA - sB;
    ssd' := ssd + tmp * tmp;
    if base + kk < dim {
      PartialStep(u, v, base + kk, tmp);
    }
  }

  /** One chunk of the accumulation: the 16 coordinates base..base+15 of
      reference point u = beginA + ty and query point v = beginB + tx, read
      from the tiles of the chunk whose first offsets are a and b;
      coordinates past dim load 0 into both tiles and add nothing. */
  method AccumulateChunk(A: array<int>, wA: nat, B: array<int>, wB: nat, dim: nat,
                         a: nat, b: nat, beginA: nat, beginB: nat, tx: nat, ty: nat,
                         ssd: int, ghost base: nat, ghost u: seq<int>, ghost v: seq<int>)
    returns (ssd': int)
    requires Coordinates(u, A[..], wA, dim, beginA + ty) && Coordinates(v, B[..], wB, dim, beginB + tx)
    requires a == Offset(base, wA, beginA) && b == Offset(base, wB, beginB)
    requires ssd == PartialSqDist(u, v, if base <= dim then base else dim)
    ensures ssd' == PartialSqDist(u, v, if base + BLOCK_DIM <= dim then base + BLOCK_DIM else dim)
  {
    ssd' := ssd;
    for kk := 0 to BLOCK_DIM
      invariant ssd' == PartialSqDist(u, v, if base + kk <= dim then base + kk else dim)
    {
      ssd' := AccumulateCoordinate(A, wA, B, wB, dim, a, b, beginA, beginB, tx, ty, ssd', base, kk, u, v);
    }
  }

  /** The accumulation of one work-item, all chunks: ssd is the squared
      distance between reference point r = beginA + ty and query point
      q = beginB + tx when both exist, and 0 (nothing accumulated) when
      either does not. */
  method ChunkedSsd(A: array<int>, wA: nat, B: array<int>, wB: nat, dim: nat, beginA: nat, beginB: nat, tx: nat, ty: nat)
    returns (ssd: int)
    requires 0 < wA && A.Length == dim * wA && B.Length == dim * wB
    ensures beginA + ty < wA && beginB + tx < wB ==>
      ssd == SqDist(Point(A[..], wA, dim, beginA + ty), Point(B[..], wB, dim, beginB + tx))
    ensures !(beginA + ty < wA && beginB + tx < wB) ==> ssd == 0
  {
    var stepA := BLOCK_DIM * wA;
    var stepB := BLOCK_DIM * wB;
    var endA := beginA + (dim - 1) * wA;
    var cond1 := beginB + tx < wB;
    var cond2 := beginA + ty < wA;
    ghost var u, v := [], [];
    if cond2 && cond1 {
      u, v := Point(A[..], wA, dim, beginA + ty), Point(B[..], wB, dim, beginB + tx);
    }
    ssd := 0;
    var a, b := beginA, beginB;
    ghost var base: nat := 0;
    LoopTest(base, wA, beginA, dim);
    while a <= endA
      invariant a == Offset(base, wA, beginA) && b == Offset(base, wB, beginB)
      invariant a <= endA <==> base < dim
      invariant base <= dim + BLOCK_DIM
      invariant !(cond2 && cond1) ==> ssd == 0
      invariant cond2 && cond1 ==> ssd == PartialSqDist(u, v, if base <= dim then base else dim)
      decreases dim - base
    {
      if cond2 && cond1 {
        ssd := AccumulateChunk(A, wA, B, wB, dim, a, b, beginA, beginB, tx, ty, ssd, base, u, v);
      }
      ChunkRow(base, BLOCK_DIM, wA, beginA);
      ChunkRow(base, BLOCK_DIM, wB, beginB);
      a, b := a + stepA, b + stepB;
      base := base + BLOCK_DIM;
      LoopTest(base, wA, beginA, dim);
    }
    if cond2 && cond1 {
      PartialSqDistPrefix(u, v, dim);
    }
  }

  /** One work-item of cuComputeDistanceGlobal. If its cell (r, q) lies
      inside the wA-by-wB matrix, the cell receives the squared distance
      between reference point r and query point q; otherwise nothing is
      written. No other cell changes, and every read of A and B is in
      bounds. */
  method ComputeDistanceGlobal(A: array<int>, wA: nat, B: array<int>, wB: nat, dim: nat, AB: array<int>,
                               groupX: nat, groupY: nat, tx: nat, ty: nat)
    requires 0 < wA && tx < BLOCK_DIM && ty < BLOCK_DIM
    requires A.Length == dim * wA && B.Length == dim * wB && AB.Length == wA * wB
    requires AB != A && AB != B
    modifies AB
    ensures var r, q := BLOCK_DIM * groupY + ty, BLOCK_DIM * groupX + tx;
      r < wA && q < wB ==>
        Offset(r, wB, q) < AB.Length &&
        AB[..] == old(AB[..])[Offset(r, wB, q) := SqDist(Point(A[..], wA, dim, r), Point(B[..], wB, dim, q))]
    ensures var r, q := BLOCK_DIM * groupY + ty, BLOCK_DIM * groupX + tx;
      !(r < wA && q < wB) ==> AB[..] == old(AB[..])
  {
    var beginA := BLOCK_DIM * groupY;
    var beginB := BLOCK_DIM * groupX;
    var cond1 := beginB + tx < wB;
    var cond2 := beginA + ty < wA;
    var ssd := ChunkedSsd(A, wA, B, wB, dim, beginA, beginB, tx, ty);
    if cond2 && cond1 {
      // AB[(begin_A + ty) * wB + begin_B + tx] = ssd
      SetCell(AB, wA, wB, beginA + ty, beginB + tx, ssd);
    }
  }

  /** Every cell of the matrix has exactly one owning work-item: cell (r, q)
      is written by work-group (q / 16, r / 16), work-item (q % 16, r % 16),
      and by no other. */
  lemma UniqueOwner(groupX: nat, groupY: nat, tx: nat, ty: nat, r: nat, q: nat)
    requires tx < BLOCK_DIM && ty < BLOCK_DIM
    ensures (BLOCK_DIM * groupY + ty == r && BLOCK_DIM * groupX + tx == q) <==>
            (groupY == r / BLOCK_DIM && ty == r % BLOCK_DIM && groupX == q / BLOCK_DIM && tx == q % BLOCK_DIM)
  {
    if BLOCK_DIM * groupY + ty == r && BLOCK_DIM * groupX + tx == q {
      DivModUnique(r, BLOCK_DIM, groupY, ty);
      DivModUnique(q, BLOCK_DIM, groupX, tx);
    }
  }
}
