/** What the two top-k selectors compute: the k rows of a column that come
    first when the column is sorted stably by value (equal values keep row
    order), listed in that order. */
module Selection {

  /** Row a precedes row b in the stable order of col: a smaller value, or an
      equal value and a smaller row. */
  predicate Before(col: seq<int>, a: int, b: int)
    requires 0 <= a < |col| && 0 <= b < |col|
  {
    col[a] < col[b] || (col[a] == col[b] && a < b)
  }

  /** idx lists, in stable order, the k rows of col that precede every other row:
      the first k entries of a stable sort of col by value. */
  predicate IsStableTopK(col: seq<int>, idx: seq<int>, k: nat) {
    && |idx| == k
    && (forall i :: 0 <= i < k ==> 0 <= idx[i] < |col|)
    && (forall i, j {:trigger Before(col, idx[i], idx[j])} :: 0 <= i < j < k ==> Before(col, idx[i], idx[j]))
    && (forall i, r {:trigger Before(col, idx[i], r)} :: 0 <= i < k && 0 <= r < |col| && r !in idx ==> Before(col, idx[i], r))
  }

  /** The values selected, in selection order. */
  function Gather(col: seq<int>, idx: seq<int>): (vals: seq<int>)
    requires forall i :: 0 <= i < |idx| ==> 0 <= idx[i] < |col|
    ensures |vals| == |idx| && forall i :: 0 <= i < |idx| ==> vals[i] == col[idx[i]]
  {
    seq(|idx|, i requires 0 <= i < |idx| => col[idx[i]])
  }

  /** A stable top-k lists k distinct rows whose values ascend. */
  lemma TopKSortedDistinct(col: seq<int>, idx: seq<int>, k: nat)
    requires IsStableTopK(col, idx, k)
    ensures forall i, j :: 0 <= i < j < k ==> idx[i] != idx[j] && col[idx[i]] <= col[idx[j]]
  {
    forall i, j | 0 <= i < j < k
      ensures idx[i] != idx[j] && col[idx[i]] <= col[idx[j]]
    {
      assert Before(col, idx[i], idx[j]);
    }
  }

  /** There is only one stable top-k: two selectors meeting the specification
      return the same rows in the same order. */
  lemma TopKUnique(col: seq<int>, s: seq<int>, t: seq<int>, k: nat)
    requires IsStableTopK(col, s, k) && IsStableTopK(col, t, k)
    ensures s == t
  {
    TopKAgreeUpTo(col, s, t, k, k);
  }

  /** Helper of TopKUnique: the two selections agree on their first n rows. */
  lemma {:induction false} TopKAgreeUpTo(col: seq<int>, s: seq<int>, t: seq<int>, k: nat, n: nat)
    requires IsStableTopK(col, s, k) && IsStableTopK(col, t, k) && n <= k
    ensures forall a :: 0 <= a < n ==> s[a] == t[a]
  {
    if n > 0 {
      var i := n - 1;
      TopKAgreeUpTo(col, s, t, k, i);
      if s[i] != t[i] {
        FirstSlotIsTaken(col, s, t, k, i);
        FirstSlotIsTaken(col, t, s, k, i);
      }
    }
  }

  /** Helper of TopKUnique: at the first position where s and t differ, s's
      row cannot precede t's. */
  lemma FirstSlotIsTaken(col: seq<int>, s: seq<int>, t: seq<int>, k: nat, i: nat)
    requires IsStableTopK(col, s, k) && IsStableTopK(col, t, k)
    requires i < k && s[i] != t[i] && forall a :: 0 <= a < i ==> s[a] == t[a]
    ensures !Before(col, s[i], t[i])
  {
    forall a | 0 <= a < i
      ensures t[a] != s[i]
    {
      assert Before(col, s[a], s[i]);
    }
    if s[i] in t {
      var j :| 0 <= j < k && t[j] == s[i];
      assert Before(col, t[i], t[j]);
    } else {
      assert Before(col, t[i], s[i]);
    }
  }

  /** Increasing k only extends the result: the first m rows of a stable
      top-k form the stable top-m. */
  lemma TopKPrefix(col: seq<int>, idx: seq<int>, k: nat, m: nat)
    requires IsStableTopK(col, idx, k) && m <= k
    ensures IsStableTopK(col, idx[..m], m)
  {
    var p := idx[..m];
    forall i, r | 0 <= i < m && 0 <= r < |col| && r !in p
      ensures Before(col, p[i], r)
    {
      if r in idx {
        var j :| 0 <= j < k && idx[j] == r;
        assert m <= j;
        assert Before(col, idx[i], idx[j]);
      }
    }
  }

  /** w with row l placed at slot i. */
  function InsertAt(w: seq<int>, i: nat, l: int): (w': seq<int>)
    requires i <= |w|
    ensures |w'| == |w| + 1
    ensures forall a {:trigger w'[a]} :: 0 <= a < |w'| ==> w'[a] == if a < i then w[a] else if a == i then l else w[a - 1]
    ensures forall r :: r in w' <==> r == l || r in w
  {
    var w' := w[..i] + [l] + w[i..];
    assert forall r :: r in w ==> r in w' by {
      forall r | r in w ensures r in w' {
        var a :| 0 <= a < |w| && w[a] == r;
        assert w'[if a < i then a else a + 1] == r;
      }
    }
    w'
  }

  /** Row l is inserted into a stable top-m of the rows before it at the slot
      that follows every value not greater than its own: the result is the
      stable top-(m+1) of the rows up to l. Unless the window holds every
      earlier row, the slot must lie inside the window. */
  lemma TopKInsert(col: seq<int>, w: seq<int>, l: nat, m: nat, i: nat)
    requires l < |col| && m <= l && i <= m
    requires IsStableTopK(col[..l], w, m)
    requires forall a :: 0 <= a < i ==> col[w[a]] <= col[l]
    requires forall a :: i <= a < m ==> col[w[a]] > col[l]
    requires i < m || forall r :: 0 <= r < l ==> r in w
    ensures IsStableTopK(col[..l + 1], InsertAt(w, i, l), m + 1)
  {
    InsertKeepsOrder(col, w, l, m, i);
    InsertKeepsOutsideAfter(col, w, l, m, i);
  }

  /** Helper of TopKInsert: the window stays in stable order. */
  lemma InsertKeepsOrder(col: seq<int>, w: seq<int>, l: nat, m: nat, i: nat)
    requires l < |col| && m <= l && i <= m
    requires IsStableTopK(col[..l], w, m)
    requires forall a :: 0 <= a < i ==> col[w[a]] <= col[l]
    requires forall a :: i <= a < m ==> col[w[a]] > col[l]
    ensures forall a :: 0 <= a < m + 1 ==> 0 <= InsertAt(w, i, l)[a] < l + 1
    ensures forall a, b :: 0 <= a < b < m + 1 ==> Before(col[..l + 1], InsertAt(w, i, l)[a], InsertAt(w, i, l)[b])
  {
    var c, w' := col[..l + 1], InsertAt(w, i, l);
    assert forall a :: 0 <= a < m ==> c[w[a]] == col[w[a]] && w[a] < l;
    forall a, b | 0 <= a < b < m + 1
      ensures Before(c, w'[a], w'[b])
    {
      if a < i && b < i {
        assert Before(col[..l], w[a], w[b]);
      } else if a < i && i < b {
        assert Before(col[..l], w[a], w[b - 1]);
      } else if i < a {
        assert Before(col[..l], w[a - 1], w[b - 1]);
      }
    }
  }

  /** Helper of TopKInsert: every row left out still follows the whole window. */
  lemma InsertKeepsOutsideAfter(col: seq<int>, w: seq<int>, l: nat, m: nat, i: nat)
    requires l < |col| && m <= l && i <= m
    requires IsStableTopK(col[..l], w, m)
    requires forall a :: i <= a < m ==> col[w[a]] > col[l]
    requires i < m || forall r :: 0 <= r < l ==> r in w
    ensures forall a, r :: 0 <= a < m + 1 && 0 <= r < l + 1 && r !in InsertAt(w, i, l) ==>
      Before(col[..l + 1], InsertAt(w, i, l)[a], r)
  {
    var c, w' := col[..l + 1], InsertAt(w, i, l);
    assert forall a :: 0 <= a < m ==> c[w[a]] == col[w[a]] && w[a] < l;
    forall a, r | 0 <= a < m + 1 && 0 <= r < |c| && r !in w'
      ensures Before(c, w'[a], r)
    {
      assert r < l && r !in w;
      if a < i {
        assert Before(col[..l], w[a], r);
      } else if a == i {
        if i < m {
          assert Before(col[..l], w[m - 1], r);
        }
      } else {
        assert Before(col[..l], w[a - 1], r);
      }
    }
  }

  /** Row l, no smaller than the last of a full window of k, leaves the
      window the stable top-k of the rows up to l. */
  lemma TopKSkip(col: seq<int>, w: seq<int>, l: nat, k: nat)
    requires l < |col| && 1 <= k
    requires IsStableTopK(col[..l], w, k)
    requires col[w[k - 1]] <= col[l]
    ensures IsStableTopK(col[..l + 1], w, k)
  {
    var c := col[..l + 1];
    assert forall a :: 0 <= a < k ==> c[w[a]] == col[w[a]] && w[a] < l;
    forall a, b | 0 <= a < b < k
      ensures Before(c, w[a], w[b])
    {
      assert Before(col[..l], w[a], w[b]);
    }
    forall a, r | 0 <= a < k && 0 <= r < |c| && r !in w
      ensures Before(c, w[a], r)
    {
      if r < l {
        assert Before(col[..l], w[a], r);
      } else if a < k - 1 {
        assert Before(col[..l], w[a], w[k - 1]);
      }
    }
  }

  /** The scan's answer places row l correctly: every slot before i holds a
      distance not greater than row l's, slot i a greater one, so row l goes
      in at slot i. */
  lemma ScanInsert(col: seq<int>, w: seq<int>, l: nat, m: nat, i: nat)
    requires l < |col| && i < m <= l
    requires IsStableTopK(col[..l], w, m)
    requires forall a :: 0 <= a < i ==> col[w[a]] <= col[l]
    requires col[w[i]] > col[l]
    ensures IsStableTopK(col[..l + 1], InsertAt(w, i, l), m + 1)
  {
    forall a | i < a < m
      ensures col[w[a]] > col[l]
    {
      assert Before(col[..l], w[i], w[a]);
    }
    TopKInsert(col, w, l, m, i);
  }

  /** Part 2's insertion: row l goes in at the scan's slot and the last
      slot's row drops out, leaving the stable top-k of rows 0..l. */
  lemma ScanReplace(col: seq<int>, w: seq<int>, l: nat, k: nat, i: nat)
    requires l < |col| && i < k <= l
    requires IsStableTopK(col[..l], w, k)
    requires forall a :: 0 <= a < i ==> col[w[a]] <= col[l]
    requires col[w[i]] > col[l]
    ensures IsStableTopK(col[..l + 1], InsertAt(w, i, l)[..k], k)
  {
    ScanInsert(col, w, l, k, i);
    TopKPrefix(col[..l + 1], InsertAt(w, i, l), k + 1, k);
  }

  /** A row whose distance is not below the last slot's goes behind every
      slot, when the window holds every earlier row. */
  lemma ScanAppend(col: seq<int>, w: seq<int>, l: nat)
    requires 1 <= l < |col|
    requires IsStableTopK(col[..l], w, l)
    requires forall r :: 0 <= r < l ==> r in w
    requires col[w[l - 1]] <= col[l]
    ensures IsStableTopK(col[..l + 1], InsertAt(w, l, l), l + 1)
  {
    forall a | 0 <= a < l - 1
      ensures col[w[a]] <= col[l]
    {
      assert Before(col[..l], w[a], w[l - 1]);
    }
    TopKInsert(col, w, l, l, l);
  }

  /** The first row alone is the stable top-1 of the rows up to it. */
  lemma TopKFirst(col: seq<int>)
    requires 0 < |col|
    ensures IsStableTopK(col[..1], [0], 1)
  {
  }

  /** A stable top-k of the rows up to the last is the whole column's. */
  lemma TopKAllRows(col: seq<int>, w: seq<int>, k: nat)
    requires IsStableTopK(col[..|col|], w, k)
    ensures IsStableTopK(col, w, k)
  {
    assert col[..|col|] == col;
  }
}
