/**
 * `find_indices_equal_to(arr, v)`: `np.column_stack(np.nonzero(arr == v))`
 * on a three-dimensional integer array, i.e. every index triple whose cell
 * equals `v`, listed in the row-major order in which `np.nonzero` yields them.
 */
module Search {
  import opened Volume
  import opened Gradient

  /** Soundness of a listing: every entry is in bounds and its cell equals `v`. */
  ghost predicate AllMatch(img: Image, v: int, r: seq<Index>)
    requires WellFormed(img)
  {
    forall m :: 0 <= m < |r| ==> InBounds(r[m], img.shape) && Cell(img, r[m]) == v
  }

  /** Completeness of a listing: every in-bounds cell equal to `v` has its index listed. */
  ghost predicate ContainsAllMatches(img: Image, v: int, r: seq<Index>)
    requires WellFormed(img)
  {
    forall x :: InBounds(x, img.shape) && Cell(img, x) == v ==> x in r
  }

  /** Each entry comes strictly before every later one in row-major order. */
  predicate StrictlyIncreasing(r: seq<Index>) {
    forall p, q :: 0 <= p < q < |r| ==> RowMajorBefore(r[p], r[q])
  }

  /** What `np.nonzero(arr == v)` promises, stacked as index rows. */
  ghost predicate IsListing(img: Image, v: int, r: seq<Index>)
    requires WellFormed(img)
  {
    AllMatch(img, v, r) && ContainsAllMatches(img, v, r) && StrictlyIncreasing(r)
  }

  /** The set of in-bounds positions whose cell equals `v`. */
  ghost function MatchSet(img: Image, v: int): set<Index>
    requires WellFormed(img)
  {
    set i, j, k | 0 <= i < img.shape.n0 && 0 <= j < img.shape.n1 && 0 <= k < img.shape.n2
      && img.voxels[i][j][k] == v :: Index(i, j, k)
  }

  /** The elements of a listing, as a set. */
  ghost function Elems(r: seq<Index>): set<Index> {
    set x | x in r
  }

  /** Scans the grid in row-major order and collects every index whose cell equals `v`. */
  method FindIndicesEqualTo(img: Image, v: int) returns (r: seq<Index>)
    requires WellFormed(img)
    ensures IsListing(img, v, r)
    ensures |r| == |MatchSet(img, v)|
    ensures r == [] <==> forall x :: InBounds(x, img.shape) ==> Cell(img, x) != v
  {
    var s := img.shape;
    r := [];
    var i := 0;
    while i < s.n0
      invariant 0 <= i <= s.n0
      invariant forall m :: 0 <= m < |r| ==>
        InBounds(r[m], s) && Cell(img, r[m]) == v && RowMajorBefore(r[m], Index(i, 0, 0))
      invariant forall x :: InBounds(x, s) && RowMajorBefore(x, Index(i, 0, 0)) && Cell(img, x) == v ==> x in r
      invariant StrictlyIncreasing(r)
    {
      var j := 0;
      while j < s.n1
        invariant 0 <= j <= s.n1
        invariant forall m :: 0 <= m < |r| ==>
          InBounds(r[m], s) && Cell(img, r[m]) == v && RowMajorBefore(r[m], Index(i, j, 0))
        invariant forall x :: InBounds(x, s) && RowMajorBefore(x, Index(i, j, 0)) && Cell(img, x) == v ==> x in r
        invariant StrictlyIncreasing(r)
      {
        var k := 0;
        while k < s.n2
          invariant 0 <= k <= s.n2
          invariant forall m :: 0 <= m < |r| ==>
            InBounds(r[m], s) && Cell(img, r[m]) == v && RowMajorBefore(r[m], Index(i, j, k))
          invariant forall x :: InBounds(x, s) && RowMajorBefore(x, Index(i, j, k)) && Cell(img, x) == v ==> x in r
          invariant StrictlyIncreasing(r)
        {
          if img.voxels[i][j][k] == v {
            r := r + [Index(i, j, k)];
          }
          k := k + 1;
        }
        j := j + 1;
      }
      i := i + 1;
    }
    if r != [] {
      assert InBounds(r[0], s) && Cell(img, r[0]) == v;
    }
    ListingCount(img, v, r);
  }

  /** A strictly increasing sequence has no repeated entry, so it has as many elements as entries. */
  lemma {:induction false} IncreasingCard(r: seq<Index>)
    requires StrictlyIncreasing(r)
    ensures |Elems(r)| == |r|
  {
    if r != [] {
      var init, last := r[..|r| - 1], r[|r| - 1];
      assert StrictlyIncreasing(init);
      IncreasingCard(init);
      assert last !in Elems(init);
      assert Elems(r) == Elems(init) + {last};
    }
  }

  /** A listing has exactly one entry per matching cell. */
  lemma ListingCount(img: Image, v: int, r: seq<Index>)
    requires WellFormed(img) && IsListing(img, v, r)
    ensures |r| == |MatchSet(img, v)|
  {
    assert Elems(r) == MatchSet(img, v) by {
      forall x | x in MatchSet(img, v) ensures x in Elems(r) {
        assert InBounds(x, img.shape) && Cell(img, x) == v;
      }
    }
    IncreasingCard(r);
  }

  /** Two strictly increasing sequences with the same elements are equal. */
  lemma {:induction false} IncreasingUnique(a: seq<Index>, b: seq<Index>)
    requires StrictlyIncreasing(a) && StrictlyIncreasing(b)
    requires forall x :: x in a <==> x in b
    ensures a == b
  {
    SameElemsBothEmpty(a, b);
    if a != [] && b != [] {
      assert a[0] in b && b[0] in a;
      assert a[0] == b[0];
      forall x ensures x in a[1..] <==> x in b[1..] {
        if x in a[1..] {
          TailMember(a, b, x);
        }
        if x in b[1..] {
          TailMember(b, a, x);
        }
      }
      IncreasingUnique(a[1..], b[1..]);
      assert a == [a[0]] + a[1..] && b == [b[0]] + b[1..];
    }
  }

  /** Sequences with the same elements are empty together. */
  lemma SameElemsBothEmpty(a: seq<Index>, b: seq<Index>)
    requires forall x :: x in a <==> x in b
    ensures a == [] <==> b == []
  {
    if a != [] {
      assert a[0] in a;
    }
    if b != [] {
      assert b[0] in b;
    }
  }

  /** An element of the tail of `a` that also lies in `b`, which shares `a`'s head, lies in `b`'s tail. */
  lemma TailMember(a: seq<Index>, b: seq<Index>, x: Index)
    requires StrictlyIncreasing(a) && StrictlyIncreasing(b)
    requires a != [] && b != [] && a[0] == b[0]
    requires x in a[1..] && x in b
    ensures x in b[1..]
  {
    var n :| 0 <= n < |a| - 1 && a[1..][n] == x;
    assert RowMajorBefore(a[0], a[n + 1]);
    var m :| 0 <= m < |b| && b[m] == x;
    assert m != 0;
    assert b[1..][m - 1] == x;
  }

  /** The listing is fully determined: any two results meeting the contract are the same sequence. */
  lemma ListingUnique(img: Image, v: int, r1: seq<Index>, r2: seq<Index>)
    requires WellFormed(img) && IsListing(img, v, r1) && IsListing(img, v, r2)
    ensures r1 == r2
  {
    forall x ensures x in r1 <==> x in r2 {
      if x in r1 {
        var m :| 0 <= m < |r1| && r1[m] == x;
      }
      if x in r2 {
        var m :| 0 <= m < |r2| && r2[m] == x;
      }
    }
    IncreasingUnique(r1, r2);
  }

  /**
   * On a gradient image with `size[0] <= 100` and `size[1] <= 100`, searching
   * for the value of an in-bounds voxel finds exactly that voxel.
   */
  lemma GradientSearch(img: Image, x: Index, r: seq<Index>)
    requires IsGradient(img) && img.shape.n0 <= 100 && img.shape.n1 <= 100
    requires InBounds(x, img.shape)
    requires IsListing(img, x.i + 100 * x.j + 10000 * x.k, r)
    ensures r == [x]
  {
    var v := GradientValue(x);
    forall y | InBounds(y, img.shape) && Cell(img, y) == v ensures y in [x] {
      GradientInjective(img.shape, x, y);
    }
    assert IsListing(img, v, [x]);
    ListingUnique(img, v, r, [x]);
  }
}
