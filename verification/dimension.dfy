/** Dimension values of every rank (`Dims<[Ix; k]>` for k in 0..=8 and
    `DynDims`) and the `Dimensions` trait: `ndim`, `size`, `default_strides`,
    `Self::default()` and the `Smaller`/`Larger` rank neighbours. */
module Dimension {
  import opened Common
  import DynDims

  /** The largest statically ranked dimension type is `Dims<[Ix; 8]>`. */
  const MAX_STATIC_RANK: nat := 8

  type StaticRank = k: nat | k <= MAX_STATIC_RANK

  /** The ten dimension types: a static rank 0..=8, or the dynamic one. */
  datatype Rank = Static(k: StaticRank) | Dyn

  /** A dimension value: a fixed array of extents, or a dynamic dimension. */
  datatype Dims = Fixed(ext: seq<nat>) | Dynamic(repr: DynDims.DynDimsRepr)

  predicate Valid(d: Dims) {
    match d
    case Fixed(e) => |e| <= MAX_STATIC_RANK
    case Dynamic(r) => DynDims.Valid(r)
  }

  /** The type a dimension value belongs to. */
  function RankOf(d: Dims): Rank
    requires Valid(d)
  {
    match d
    case Fixed(e) => Static(|e|)
    case Dynamic(_) => Dyn
  }

  /** `NDIM`: `Some(k)` for a static rank, `None` for the dynamic one. */
  function NdimConst(r: Rank): Option<nat> {
    match r
    case Static(k) => Some(k)
    case Dyn => None
  }

  /** `as_slice`: the extents in axis order. */
  function AsSlice(d: Dims): seq<nat>
    requires Valid(d)
  {
    match d
    case Fixed(e) => e
    case Dynamic(r) => DynDims.Contents(r)
  }

  /** `ndim`: the constant k for `Dims<[Ix; k]>`, the slice length for a
      dynamic dimension; either way the number of extents. */
  function Ndim(d: Dims): (n: nat)
    requires Valid(d)
    ensures n == |AsSlice(d)|
    ensures NdimConst(RankOf(d)).Some? ==> NdimConst(RankOf(d)).value == n
  {
    match d
    case Fixed(e) => |e|
    case Dynamic(r) => DynDims.Ndim(r)
  }

  /** `as_slice_mut` written back: the same value with its extents replaced,
      keeping its type (and, for a dynamic value, its representation). */
  function WithSlice(d: Dims, s: seq<nat>): (r: Dims)
    requires Valid(d) && |s| == Ndim(d)
    ensures Valid(r) && RankOf(r) == RankOf(d) && AsSlice(r) == s
    ensures d.Dynamic? ==> (r.repr.Inline? <==> d.repr.Inline?)
  {
    match d
    case Fixed(_) => Fixed(s)
    case Dynamic(r) =>
      if r.Inline? then
        assert (s + r.cells[r.len..])[..r.len] == s;
        Dynamic(DynDims.Inline(r.len, s + r.cells[r.len..]))
      else
        Dynamic(DynDims.Alloc(s))
  }

  /** Product of a sequence of extents; the empty product is 1. */
  function Product(e: seq<nat>): nat {
    if |e| == 0 then 1 else e[0] * Product(e[1..])
  }

  /** `size`: the number of elements a shape describes. */
  function Size(d: Dims): (n: nat)
    requires Valid(d)
    ensures Ndim(d) == 0 ==> n == 1
    ensures n == 0 <==> !AllNonZero(AsSlice(d))
  {
    ProductZeroIff(AsSlice(d));
    Product(AsSlice(d))
  }

  predicate AllNonZero(e: seq<nat>) {
    forall i :: 0 <= i < |e| ==> e[i] != 0
  }

  /** Peeling one extent off a suffix of the extents. */
  lemma ProductStep(e: seq<nat>, i: nat)
    requires i < |e|
    ensures Product(e[i..]) == e[i] * Product(e[i + 1..])
  {
    assert e[i..][1..] == e[i + 1..];
  }

  /** A shape has no elements exactly when one of its extents is 0. */
  lemma {:induction false} ProductZeroIff(e: seq<nat>)
    ensures Product(e) == 0 <==> !AllNonZero(e)
  {
    if |e| > 0 {
      ProductZeroIff(e[1..]);
      assert AllNonZero(e) <==> e[0] != 0 && AllNonZero(e[1..]) by {
        if e[0] != 0 && AllNonZero(e[1..]) {
          forall i | 0 <= i < |e| ensures e[i] != 0 {
            if i > 0 { assert e[i] == e[1..][i - 1]; }
          }
        }
      }
    }
  }

  /** `size` is the product of the extents; rank 0 has size 1 and a shape
      has size 0 exactly when one extent is 0. */
  lemma SizeIsProduct(d: Dims)
    requires Valid(d)
    ensures Ndim(d) == 0 ==> Size(d) == 1
    ensures Size(d) == 0 <==> !AllNonZero(AsSlice(d))
    ensures d.Fixed? && |d.ext| == 2 ==> Size(d) == d.ext[0] * d.ext[1]
  {
    ProductZeroIff(AsSlice(d));
    if d.Fixed? && |d.ext| == 2 {
      var e := d.ext;
      assert e[1..][1..] == [];
      assert Product(e[1..]) == e[1] * Product(e[1..][1..]);
      assert Product(e) == e[0] * Product(e[1..]);
    }
  }

  /** Row-major strides of extents `e`: each axis steps over the product of
      the extents to its right. */
  function RowMajorStrides(e: seq<nat>): (s: seq<nat>)
    ensures |s| == |e|
    ensures forall i :: 0 <= i < |e| ==> s[i] == Product(e[i + 1..])
  {
    seq(|e|, i requires 0 <= i < |e| => Product(e[i + 1..]))
  }

  /** `Self::default()`: all-zero extents of the type's rank; for the
      dynamic type the default is the empty inline value, rank 0. */
  function DefaultOf(r: Rank): (d: Dims)
    ensures Valid(d) && RankOf(d) == r
    ensures forall i :: 0 <= i < |AsSlice(d)| ==> AsSlice(d)[i] == 0
    ensures r.Static? ==> Ndim(d) == r.k
    ensures r.Dyn? ==> Ndim(d) == 0
  {
    match r
    case Static(k) => Fixed(DynDims.Zeros(k))
    case Dyn => Dynamic(DynDims.Default())
  }

  /** `Dimensions::default_strides` as written. It starts from
      `Self::default()` and, when no extent is 0, writes 1 into the last
      slot and the running product of the extents (walked from the right)
      into the earlier ones. For a static rank that gives row-major strides;
      for the dynamic type the default has no slots, so the result is the
      rank-0 value whatever the rank of `d`. */
  method DefaultStridesAsWritten(d: Dims) returns (s: Dims)
    requires Valid(d)
    ensures Valid(s) && RankOf(s) == RankOf(d)
    ensures !AllNonZero(AsSlice(d)) ==> s == DefaultOf(RankOf(d))
    ensures d.Fixed? && AllNonZero(AsSlice(d)) ==> AsSlice(s) == RowMajorStrides(AsSlice(d))
    ensures d.Dynamic? ==> Ndim(s) == 0
  {
    var strides := DefaultOf(RankOf(d));
    var e := AsSlice(d);
    if AllNonZero(e) {
      var t := AsSlice(strides);
      var m := |t|;
      assert m == 0 || m == |e|;
      if m > 0 {
        t := t[m - 1 := 1];
        var cum: nat := 1;
        var j := 0;
        while j < m - 1 && j < |e|
          invariant 0 <= j <= m - 1
          invariant |t| == m
          invariant cum == Product(e[m - j..])
          invariant forall k :: m - 1 - j <= k < m ==> t[k] == Product(e[k + 1..])
        {
          ProductStep(e, m - 1 - j);
          cum := cum * e[|e| - 1 - j];
          t := t[m - 2 - j := cum];
          j := j + 1;
        }
      }
      strides := WithSlice(strides, t);
    }
    s := strides;
  }

  /** `default_strides` with the result built at the rank of `d` for every
      type (the evident intent): row-major strides when no extent is 0,
      otherwise all-zero strides of the same rank. */
  function DefaultStrides(d: Dims): (s: Dims)
    requires Valid(d)
    ensures Valid(s) && RankOf(s) == RankOf(d) && Ndim(s) == Ndim(d)
    ensures !AllNonZero(AsSlice(d)) ==> forall i :: 0 <= i < Ndim(s) ==> AsSlice(s)[i] == 0
    ensures AllNonZero(AsSlice(d)) ==> AsSlice(s) == RowMajorStrides(AsSlice(d))
  {
    var e := AsSlice(d);
    var t := if AllNonZero(e) then RowMajorStrides(e) else DynDims.Zeros(|e|);
    match d
    case Fixed(_) => Fixed(t)
    case Dynamic(_) =>
      if |t| <= DynDims.CAP then
        assert (t + DynDims.Zeros(DynDims.CAP - |t|))[..|t|] == t;
        Dynamic(DynDims.Inline(|t|, t + DynDims.Zeros(DynDims.CAP - |t|)))
      else
        Dynamic(DynDims.Alloc(t))
  }

  /** With every extent non-zero the last axis has stride 1 and each earlier
      stride is its right neighbour's stride times that neighbour's extent. */
  lemma DefaultStridesShape(d: Dims)
    requires Valid(d) && AllNonZero(AsSlice(d)) && Ndim(d) > 0
    ensures AsSlice(DefaultStrides(d))[Ndim(d) - 1] == 1
    ensures forall i :: 0 <= i < Ndim(d) - 1 ==>
      AsSlice(DefaultStrides(d))[i] == AsSlice(d)[i + 1] * AsSlice(DefaultStrides(d))[i + 1]
  {
    var e := AsSlice(d);
    assert e[Ndim(d)..] == [];
    forall i | 0 <= i < Ndim(d) - 1
      ensures AsSlice(DefaultStrides(d))[i] == e[i + 1] * AsSlice(DefaultStrides(d))[i + 1]
    {
      ProductStep(e, i + 1);
    }
  }

  /** The extents `(4, 0, 3)` get strides `(0, 0, 0)`, and `(2, 3)` gets
      `(3, 1)`. */
  lemma DefaultStridesExamples()
    ensures DefaultStrides(Fixed([4, 0, 3])) == Fixed([0, 0, 0])
    ensures DefaultStrides(Fixed([2, 3])) == Fixed([3, 1])
  {
    var z: seq<nat> := [4, 0, 3];
    assert z[1] == 0;
    assert DynDims.Zeros(3) == [0, 0, 0];
    var e: seq<nat> := [2, 3];
    assert e[1..] == [3] && e[2..] == [];
    assert Product([3]) == 3 * Product([]);
  }

  /** `Smaller`: rank 0 stays 0, rank k > 0 becomes k - 1, and the
      dynamic type's smaller neighbour is rank 8. */
  function Smaller(r: Rank): (s: Rank)
    ensures s.Static?
    ensures r.Static? && r.k > 0 ==> NdimConst(s) == Some(r.k - 1)
    ensures r == Static(0) ==> s == r
  {
    match r
    case Static(k) => if k == 0 then Static(0) else Static(k - 1)
    case Dyn => Static(MAX_STATIC_RANK)
  }

  /** `Larger`: rank k < 8 becomes k + 1; rank 8 and the dynamic type grow
      into the dynamic type. */
  function Larger(r: Rank): (l: Rank)
    ensures l.Dyn? <==> r.Dyn? || r == Static(MAX_STATIC_RANK)
    ensures r.Static? && r.k < MAX_STATIC_RANK ==> NdimConst(l) == Some(r.k + 1)
  {
    match r
    case Static(k) => if k < MAX_STATIC_RANK then Static(k + 1) else Dyn
    case Dyn => Dyn
  }

  /** The rank neighbours undo each other except at the two ends. */
  lemma RankNeighbours(r: Rank)
    ensures r != Dyn ==> Smaller(Larger(r)) == r
    ensures r != Static(0) ==> Larger(Smaller(r)) == r
    ensures r.Static? && 0 < r.k ==> NdimConst(Smaller(r)) == Some(r.k - 1)
    ensures r.Static? && r.k < MAX_STATIC_RANK ==> NdimConst(Larger(r)) == Some(r.k + 1)
  {
  }
}
