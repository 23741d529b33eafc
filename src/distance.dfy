/** Points and the squared Euclidean distance between them. */
module Distance {
  import opened Layout

  function Sq(x: int): int { x * x }

  /** A non-zero difference contributes a positive square. */
  lemma SqPositive(x: int)
    ensures Sq(x) >= 0 && (x != 0 ==> Sq(x) > 0)
  {
    if x < 0 {
      var y := -x;
      assert y * y > 0;
      assert x * x == y * y;
    } else if x > 0 {
      assert Sq(x) == x * x && x * x > 0;
    }
  }

  /** Squared Euclidean distance between two vectors of one dimension:
      the sum over the coordinates of the squared difference. */
  function SqDist(u: seq<int>, v: seq<int>): int
    requires |u| == |v|
    decreases |u|
  {
    if |u| == 0 then 0
    else SqDist(u[..|u| - 1], v[..|v| - 1]) + Sq(u[|u| - 1] - v[|v| - 1])
  }

  /** The sum of the squared coordinate differences over the first n
      coordinates only: what an accumulation loop has added after n steps. */
  function PartialSqDist(u: seq<int>, v: seq<int>, n: nat): int
    requires n <= |u| == |v|
    decreases n
  {
    if n == 0 then 0 else PartialSqDist(u, v, n - 1) + Sq(u[n - 1] - v[n - 1])
  }

  /** Accumulating over every coordinate gives the squared distance; more
      generally, the first n steps give the distance between the prefixes. */
  lemma {:induction false} PartialSqDistPrefix(u: seq<int>, v: seq<int>, n: nat)
    requires n <= |u| == |v|
    ensures PartialSqDist(u, v, n) == SqDist(u[..n], v[..n])
    ensures n == |u| ==> PartialSqDist(u, v, n) == SqDist(u, v)
    decreases n
  {
    if n > 0 {
      PartialSqDistPrefix(u, v, n - 1);
      SqDistExtend(u, v, n - 1);
    }
    assert u[..|u|] == u && v[..|v|] == v;
  }

  /** Point i of a dimension-major set of width w: coordinate d is stored at d * w + i. */
  function Point(P: seq<int>, w: nat, dim: nat, i: nat): (p: seq<int>)
    requires i < w && |P| == dim * w
    ensures |p| == dim
    ensures forall d :: 0 <= d < dim ==> Offset(d, w, i) < |P| && p[d] == P[Offset(d, w, i)]
  {
    Column(P, w, i, dim)
  }

  /** u holds the dim coordinates of point i of the dimension-major set P of
      width w: Point(P, w, dim, i) stated pointwise. */
  ghost predicate Coordinates(u: seq<int>, P: seq<int>, w: nat, dim: nat, i: nat)
  {
    |u| == dim && |P| == dim * w && i < w &&
    forall d :: 0 <= d < dim ==> Offset(d, w, i) < |P| && u[d] == P[Offset(d, w, i)]
  }

  /** The squared distances from every reference point to query point q:
      column q of the matrix the distance kernel fills. */
  function DistanceColumn(ref: seq<int>, refNb: nat, query: seq<int>, queryNb: nat, dim: nat, q: nat): (c: seq<int>)
    requires q < queryNb && |ref| == dim * refNb && |query| == dim * queryNb
    ensures |c| == refNb
    ensures forall r :: 0 <= r < refNb ==> c[r] == SqDist(Point(ref, refNb, dim, r), Point(query, queryNb, dim, q))
  {
    seq(refNb, r requires 0 <= r < refNb => SqDist(Point(ref, refNb, dim, r), Point(query, queryNb, dim, q)))
  }

  /** Extending two vectors by one coordinate adds that coordinate's squared difference. */
  lemma SqDistExtend(u: seq<int>, v: seq<int>, m: nat)
    requires |u| == |v| && m < |u|
    ensures SqDist(u[..m + 1], v[..m + 1]) == SqDist(u[..m], v[..m]) + Sq(u[m] - v[m])
  {
    assert u[..m + 1][..m] == u[..m];
    assert v[..m + 1][..m] == v[..m];
  }

  /** A squared distance is never negative. */
  lemma {:induction false} SqDistNonNegative(u: seq<int>, v: seq<int>)
    requires |u| == |v|
    ensures SqDist(u, v) >= 0
    decreases |u|
  {
    if |u| > 0 {
      SqDistNonNegative(u[..|u| - 1], v[..|v| - 1]);
      SqPositive(u[|u| - 1] - v[|v| - 1]);
    }
  }

  /** The distance is zero exactly when the two points coincide: a query point
      equal to a reference point is at distance 0 from it, and only then. */
  lemma {:induction false} SqDistZeroIff(u: seq<int>, v: seq<int>)
    requires |u| == |v|
    ensures SqDist(u, v) == 0 <==> u == v
    decreases |u|
  {
    if |u| > 0 {
      var n := |u| - 1;
      SqDistZeroIff(u[..n], v[..n]);
      SqDistNonNegative(u[..n], v[..n]);
      if SqDist(u, v) == 0 {
        SqPositive(u[n] - v[n]);
        assert u == u[..n] + [u[n]] && v == v[..n] + [v[n]];
      }
    }
  }

  /** The distance does not depend on which point is the reference. */
  lemma {:induction false} SqDistSymmetric(u: seq<int>, v: seq<int>)
    requires |u| == |v|
    ensures SqDist(u, v) == SqDist(v, u)
    decreases |u|
  {
    if |u| > 0 {
      SqDistSymmetric(u[..|u| - 1], v[..|v| - 1]);
      assert Sq(u[|u| - 1] - v[|v| - 1]) == Sq(v[|v| - 1] - u[|u| - 1]);
    }
  }

  /** The column with root applied to every entry. */
  function Roots(root: int -> int, s: seq<int>): (t: seq<int>)
    ensures |t| == |s| && forall j :: 0 <= j < |s| ==> t[j] == root(s[j])
  {
    seq(|s|, j requires 0 <= j < |s| => root(s[j]))
  }
}
