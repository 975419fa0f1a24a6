/** Conversions between shape literals and dimension values
    (`IntoDimension`, `into_pattern`) and per-axis indexing (`Index`,
    `IndexMut`) of every dimension type. */
module Conversion {
  import opened Dimension
  import DynDims

  /** What `IntoDimension` accepts: `()`, a scalar `Ix`, a tuple of 2..=8
      `Ix`, an array `[Ix; k]` with k <= 8, or a dimension value itself
      (the blanket identity impl). */
  datatype ShapeLiteral =
    | UnitLit
    | IxLit(n: nat)
    | TupleLit(items: seq<nat>)
    | ArrayLit(items: seq<nat>)
    | DimsLit(d: Dims)

  predicate ValidLiteral(p: ShapeLiteral) {
    match p
    case UnitLit => true
    case IxLit(_) => true
    case TupleLit(items) => 2 <= |items| <= MAX_STATIC_RANK
    case ArrayLit(items) => |items| <= MAX_STATIC_RANK
    case DimsLit(d) => Valid(d)
  }

  /** `into_dimension`: `()` gives rank 0, a scalar rank 1, a k-tuple or a
      `[Ix; k]` array rank k with the components in order, and a dimension
      value converts to itself. */
  function IntoDimension(p: ShapeLiteral): (d: Dims)
    requires ValidLiteral(p)
    ensures Valid(d)
    ensures p.UnitLit? ==> RankOf(d) == Static(0)
    ensures p.IxLit? ==> RankOf(d) == Static(1) && AsSlice(d) == [p.n]
    ensures p.TupleLit? || p.ArrayLit? ==> RankOf(d) == Static(|p.items|) && AsSlice(d) == p.items
    ensures p.DimsLit? ==> d == p.d
  {
    match p
    case UnitLit => Fixed([])
    case IxLit(n) => Fixed([n])
    case TupleLit(items) => Fixed(items)
    case ArrayLit(items) => Fixed(items)
    case DimsLit(d) => d
  }

  /** `into_pattern`: rank 0 gives `()`, rank 1 a scalar, rank k >= 2 a
      k-tuple and the dynamic type the value itself; converting the pattern
      back gives the same dimension. */
  function IntoPattern(d: Dims): (p: ShapeLiteral)
    requires Valid(d)
    ensures ValidLiteral(p) && !p.ArrayLit?
    ensures IntoDimension(p) == d
  {
    match d
    case Fixed(e) =>
      if |e| == 0 then UnitLit
      else if |e| == 1 then IxLit(e[0])
      else TupleLit(e)
    case Dynamic(_) => DimsLit(d)
  }

  /** Patterns of the static types survive the trip through a dimension
      value: `(a, b)` gives `[a, b]` and back `(a, b)`. */
  lemma PatternRoundTrip(p: ShapeLiteral)
    requires ValidLiteral(p) && !p.ArrayLit?
    requires p.DimsLit? ==> p.d.Dynamic?
    ensures IntoPattern(IntoDimension(p)) == p
  {
  }

  /** `Index::index`: the extent on axis `i`; slice indexing panics for an
      axis outside the rank. */
  function Index(d: Dims, i: nat): (x: nat)
    requires Valid(d) && i < Ndim(d)
    ensures x == AsSlice(d)[i]
  {
    AsSlice(d)[i]
  }

  /** `IndexMut::index_mut` followed by a store of `v`: axis `i` holds `v`,
      every other axis and the type are unchanged. */
  function IndexMut(d: Dims, i: nat, v: nat): (r: Dims)
    requires Valid(d) && i < Ndim(d)
    ensures Valid(r) && RankOf(r) == RankOf(d) && Ndim(r) == Ndim(d)
    ensures Index(r, i) == v
    ensures forall j :: 0 <= j < Ndim(d) && j != i ==> Index(r, j) == Index(d, j)
  {
    WithSlice(d, AsSlice(d)[i := v])
  }

  /** Storing back the value just read changes nothing visible. */
  lemma IndexMutSameValue(d: Dims, i: nat)
    requires Valid(d) && i < Ndim(d)
    ensures AsSlice(IndexMut(d, i, Index(d, i))) == AsSlice(d)
  {
    assert AsSlice(d)[i := AsSlice(d)[i]] == AsSlice(d);
  }
}
