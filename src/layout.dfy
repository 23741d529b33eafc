/** Flat addressing shared by every buffer of the k-NN pipeline.

    A point set of width w and dimension dim is stored dimension-major
    (coordinate d of point i at d * w + i); the distance and index matrices
    are stored row-major (row r, column c at r * width + c). Both are the
    same formula, Offset. */
module Layout {

  /** Offset of (row, col) in a row-major buffer of the given width, that is
      row * width + col (OffsetFormula). */
  function Offset(row: nat, width: nat, col: nat): nat
  {
    RowStart(row, width) + col
  }

  /** row * width, written as repeated addition so that the solver sees no
      product. */
  function RowStart(row: nat, width: nat): nat
    decreases row
  {
    if row == 0 then 0 else RowStart(row - 1, width) + width
  }

  lemma {:induction false} OffsetFormula(row: nat, width: nat, col: nat)
    ensures Offset(row, width, col) == row * width + col
    decreases row
  {
    if row > 0 {
      OffsetFormula(row - 1, width, col);
      assert row * width == (row - 1) * width + width;
    }
  }

  /** The row and the column can be read back from an offset. */
  lemma OffsetRowCol(row: nat, width: nat, col: nat)
    requires col < width
    ensures Offset(row, width, col) % width == col && Offset(row, width, col) / width == row
  {
    OffsetFormula(row, width, col);
    DivModUnique(row * width + col, width, row, col);
  }

  /** Within one column, a later row lies at a larger offset. */
  lemma {:induction false} OffsetIncreasing(a: nat, b: nat, width: nat, col: nat)
    requires a < b && 0 < width
    ensures Offset(a, width, col) < Offset(b, width, col)
    decreases b
  {
    if a < b - 1 {
      OffsetIncreasing(a, b - 1, width, col);
    }
  }

  /** Distinct rows of one column lie at distinct offsets. */
  lemma OffsetsDistinct(width: nat, col: nat)
    requires 0 < width
    ensures forall a: nat, b: nat :: a != b ==> Offset(a, width, col) != Offset(b, width, col)
  {
    forall a: nat, b: nat | a != b
      ensures Offset(a, width, col) != Offset(b, width, col)
    {
      if a < b {
        OffsetIncreasing(a, b, width, col);
      } else {
        OffsetIncreasing(b, a, width, col);
      }
    }
  }

  /** A cell of an in-range row lies inside a buffer of n rows. */
  lemma OffsetBelow(row: nat, n: nat, width: nat, col: nat)
    requires col < width && row < n
    ensures Offset(row, width, col) < n * width
  {
    OffsetFormula(row, width, col);
    MulMono(row + 1, n, width);
    assert (row + 1) * width == row * width + width;
  }

  /** Every cell of the first n rows of one column lies inside n rows. */
  lemma OffsetsBelow(n: nat, width: nat, col: nat)
    requires col < width
    ensures forall r :: 0 <= r < n ==> Offset(r, width, col) < n * width
  {
    forall r | 0 <= r < n {
      OffsetBelow(r, n, width, col);
    }
  }

  /** Cell (row, col) of a row-major matrix of the given height and width
      held in an array. */
  function Cell(a: array<int>, height: nat, width: nat, row: nat, col: nat): int
    reads a
    requires row < height && col < width && a.Length == height * width
  {
    OffsetBelow(row, height, width, col);
    a[Offset(row, width, col)]
  }

  /** Writes cell (row, col) of a row-major matrix held in an array, at flat
      position row * width + col: exactly that entry changes. */
  method SetCell(a: array<int>, height: nat, width: nat, row: nat, col: nat, v: int)
    requires row < height && col < width && a.Length == height * width
    modifies a
    ensures Offset(row, width, col) < a.Length && a[..] == old(a[..])[Offset(row, width, col) := v]
  {
    OffsetFormula(row, width, col);
    OffsetBelow(row, height, width, col);
    a[row * width + col] := v;
  }

  /** Column `col` of the first n rows of a row-major buffer. */
  function Column(s: seq<int>, width: nat, col: nat, n: nat): (c: seq<int>)
    requires col < width && n * width <= |s|
    ensures |c| == n
    ensures forall r :: 0 <= r < n ==> Offset(r, width, col) < |s| && c[r] == s[Offset(r, width, col)]
  {
    OffsetsBelow(n, width, col);
    seq(n, r requires 0 <= r < n => s[Offset(r, width, col)])
  }

  /** Cell (row, col) of an array is entry row of the array's column col. */
  lemma CellInColumn(a: array<int>, height: nat, width: nat, row: nat, col: nat)
    requires row < height && col < width && a.Length == height * width
    ensures Cell(a, height, width, row, col) == Column(a[..], width, col, height)[row]
  {
  }

  /** Only column col of buffer a differs from buffer b. */
  ghost predicate OnlyColumnChanged(a: seq<int>, b: seq<int>, width: nat, col: nat)
  {
    0 < width && |a| == |b| && forall p :: 0 <= p < |a| && p % width != col ==> a[p] == b[p]
  }

  lemma OnlyColumnChangedTrans(a: seq<int>, b: seq<int>, c: seq<int>, width: nat, col: nat)
    requires OnlyColumnChanged(a, b, width, col) && OnlyColumnChanged(b, c, width, col)
    ensures OnlyColumnChanged(a, c, width, col)
  {
  }

  /** A column other than the changed one reads the same in both buffers. */
  lemma OtherColumnUnchanged(a: seq<int>, b: seq<int>, width: nat, col: nat, c: nat, n: nat)
    requires OnlyColumnChanged(a, b, width, col) && c < width && c != col && n * width <= |b|
    ensures Column(a, width, c, n) == Column(b, width, c, n)
  {
    forall r | 0 <= r < n
      ensures Column(a, width, c, n)[r] == Column(b, width, c, n)[r]
    {
      OffsetRowCol(r, width, c);
    }
  }

  /** Two buffers of n rows that agree on every column are equal. */
  lemma ColumnsDetermine(a: seq<int>, b: seq<int>, width: nat, n: nat)
    requires |a| == |b| == n * width
    requires forall c :: 0 <= c < width ==> Column(a, width, c, n) == Column(b, width, c, n)
    ensures a == b
  {
    forall p | 0 <= p < |a|
      ensures a[p] == b[p]
    {
      var r, c := p / width, p % width;
      OffsetFormula(r, width, c);
      if n <= r {
        MulMonoInt(n, r, width);
      }
      assert Column(a, width, c, n)[r] == Column(b, width, c, n)[r];
    }
  }

  /** Writing one cell of column col changes exactly that entry of the
      column and nothing outside the column. */
  lemma ColumnUpdate(s: seq<int>, width: nat, col: nat, n: nat, row: nat, v: int)
    requires col < width && row < n && n * width <= |s|
    ensures Offset(row, width, col) < |s|
    ensures Column(s[Offset(row, width, col) := v], width, col, n) == Column(s, width, col, n)[row := v]
    ensures OnlyColumnChanged(s[Offset(row, width, col) := v], s, width, col)
  {
    OffsetBelow(row, n, width, col);
    OffsetRowCol(row, width, col);
    OffsetsDistinct(width, col);
    var s' := s[Offset(row, width, col) := v];
    var c, c' := Column(s, width, col, n), Column(s', width, col, n);
    forall r | 0 <= r < n
      ensures c'[r] == c[row := v][r]
    {
      if r != row {
        assert Offset(r, width, col) != Offset(row, width, col);
      }
    }
  }

  lemma {:induction false} MulMono(a: nat, b: nat, w: nat)
    requires a <= b
    ensures a * w <= b * w
    decreases b - a
  {
    if a < b {
      MulMono(a, b - 1, w);
      assert b * w == (b - 1) * w + w;
    }
  }

  /** Euclidean division is determined by quotient and remainder. */
  lemma DivModUnique(y: int, w: nat, q: int, r: int)
    requires 0 < w && y == q * w + r && 0 <= r < w
    ensures y / w == q && y % w == r
  {
    var q', r' := y / w, y % w;
    assert y == q' * w + r';
    if q' < q {
      MulMonoInt(q' + 1, q, w);
    } else if q < q' {
      MulMonoInt(q + 1, q', w);
    }
  }

  lemma MulMonoInt(a: int, b: int, w: nat)
    requires a <= b
    ensures a * w <= b * w
  {
    assert b * w - a * w == (b - a) * w;
    MulMono(0, b - a, w);
  }
}
