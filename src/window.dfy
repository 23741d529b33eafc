/** The state of a selection window while a shift loop runs: the rows of
    the window occupy the first slots of a column (or of a contiguous
    array) and the rows not yet seen follow untouched. */
module Window {
  import opened Selection

  /** Column s with rows j+1..top holding the entries of rows j..top-1: the
      state of a column after the shift loop has moved rows top-1 down to j. */
  function Shifted(s: seq<int>, j: nat, top: nat): (t: seq<int>)
    requires j <= top < |s|
    ensures |t| == |s|
    ensures forall r {:trigger t[r]} :: 0 <= r < |s| ==> t[r] == if j < r <= top then s[r - 1] else s[r]
  {
    if top == j then s else Shifted(s, j, top - 1)[top := s[top - 1]]
  }

  /** One more step of the shift loop: copying row j-1 into row j. */
  lemma ShiftedStep(s: seq<int>, j: nat, top: nat)
    requires 0 < j <= top < |s|
    ensures Shifted(s, j, top)[j - 1] == s[j - 1]
    ensures Shifted(s, j, top)[j := s[j - 1]] == Shifted(s, j - 1, top)
  {
    var t, t' := Shifted(s, j, top)[j := s[j - 1]], Shifted(s, j - 1, top);
    assert forall r :: 0 <= r < |s| ==> t[r] == t'[r];
  }

  /** Inserting row l at slot i of a window of l rows (the kernel's part 1,
      every iteration of the oracle before k): the shifted columns hold the
      window with row l inserted, and nothing behind row l has moved. */
  lemma FirstRowsInsert(col: seq<int>, w: seq<int>, l: nat, i: nat, v: int, D: seq<int>, I: seq<int>)
    requires l < |col| && i <= l && |w| == l && forall a :: 0 <= a < l ==> 0 <= w[a] < |col|
    requires D == Gather(col, w) + col[l..] && l < |I| && I[..l] == w && v == col[l]
    ensures Shifted(D, i, l)[i := v] == Gather(col, InsertAt(w, i, l)) + col[l + 1..]
    ensures Shifted(I, i, l)[i := l][..l + 1] == InsertAt(w, i, l)
    ensures Shifted(I, i, l)[i := l][l + 1..] == I[l + 1..]
  {
  }

  /** Appending row l behind a window of l rows. */
  lemma FirstRowsAppend(col: seq<int>, w: seq<int>, l: nat, D: seq<int>, I: seq<int>)
    requires l < |col| && |w| == l && forall a :: 0 <= a < l ==> 0 <= w[a] < |col|
    requires D == Gather(col, w) + col[l..] && l < |I| && I[..l] == w
    ensures D == Gather(col, InsertAt(w, l, l)) + col[l + 1..]
    ensures I[l := l][..l + 1] == InsertAt(w, l, l)
  {
  }

  /** Inserting row l at slot i of a full window of k rows (the kernel's
      part 2, the oracle from k on): the shifted columns hold the window with
      row l inserted and the old k-th dropped. */
  lemma LaterRowsInsert(col: seq<int>, w: seq<int>, k: nat, l: nat, i: nat, v: int, D: seq<int>, I: seq<int>)
    requires k <= l < |col| && i < k && |w| == k && forall a :: 0 <= a < k ==> 0 <= w[a] < |col|
    requires D == Gather(col, w) + col[k..] && k <= |I| && I[..k] == w && v == col[l]
    ensures Shifted(D, i, k - 1)[i := v] == Gather(col, InsertAt(w, i, l)[..k]) + col[k..]
    ensures Shifted(I, i, k - 1)[i := l][..k] == InsertAt(w, i, l)[..k]
    ensures Shifted(I, i, k - 1)[i := l][k..] == I[k..]
  {
  }
}
