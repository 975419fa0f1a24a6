/** The shape builder: a dimension value paired with a stride policy
    (row-major `C`, column-major `F`, or custom strides), and its
    resolution into concrete strides. */
module ShapeBuilder {
  import opened Dimension
  import opened Conversion

  /** `Strides`: the stride policy a shape carries. */
  datatype Strides = C | F | Custom(strides: Dims)

  /** `Shape`: dimensions with a contiguous policy (`C` or `F`). */
  datatype Shape = Shape(dims: Dims, order: Strides)

  /** `StridedShape`: dimensions with any policy. */
  datatype StridedShape = StridedShape(dims: Dims, strides: Strides)

  /** A receiver of the `ShapeBuilder` methods: any `IntoDimension` value,
      or a `Shape` already built. */
  datatype Builder = FromLiteral(lit: ShapeLiteral) | FromShape(shape: Shape)

  predicate ValidShape(s: Shape) {
    Valid(s.dims) && !s.order.Custom?
  }

  predicate ValidBuilder(b: Builder) {
    match b
    case FromLiteral(lit) => ValidLiteral(lit)
    case FromShape(s) => ValidShape(s)
  }

  /** The dimensions a builder describes. */
  function BuilderDims(b: Builder): Dims
    requires ValidBuilder(b)
  {
    match b
    case FromLiteral(lit) => IntoDimension(lit)
    case FromShape(s) => s.dims
  }

  /** `into_shape`: a literal becomes its dimension value with the
      row-major policy; a shape is returned as it is. */
  function IntoShape(b: Builder): (s: Shape)
    requires ValidBuilder(b)
    ensures ValidShape(s) && s.dims == BuilderDims(b)
    ensures b.FromLiteral? ==> s.order == C
    ensures b.FromShape? ==> s == b.shape
  {
    match b
    case FromLiteral(lit) => Shape(IntoDimension(lit), C)
    case FromShape(s) => s
  }

  /** `set_f`: column-major when asked, row-major otherwise; the
      dimensions are those of `into_shape`. */
  function SetF(b: Builder, isF: bool): (s: Shape)
    requires ValidBuilder(b)
    ensures ValidShape(s) && s.dims == BuilderDims(b)
    ensures s.order == (if isF then F else C)
  {
    IntoShape(b).(order := if isF then F else C)
  }

  /** `f`: the column-major policy, i.e. exactly `set_f(true)`. */
  function ColumnMajor(b: Builder): (s: Shape)
    requires ValidBuilder(b)
    ensures s == SetF(b, true)
    ensures s.order == F && s.dims == BuilderDims(b)
  {
    SetF(b, true)
  }

  /** `strides`: keeps the dimensions and installs the custom strides,
      converted from the literal they were given as. */
  function WithStrides(b: Builder, strides: ShapeLiteral): (s: StridedShape)
    requires ValidBuilder(b) && ValidLiteral(strides)
    ensures s.dims == BuilderDims(b)
    ensures s.strides == Custom(IntoDimension(strides))
  {
    StridedShape(IntoShape(b).dims, Custom(IntoDimension(strides)))
  }

  /** Setting the policy twice keeps only the last choice. */
  lemma SetFLastWins(b: Builder, first: bool, second: bool)
    requires ValidBuilder(b)
    ensures SetF(FromShape(SetF(b, first)), second) == SetF(b, second)
  {
  }

  /** `strides_for_dims`: `C` resolves to the row-major strides of the
      dimensions, `F` to their column-major strides (computed by
      `fortranStrides`, which is not part of this model), and custom
      strides are returned unchanged once their rank is checked against the
      dimensions (the source's `debug_assert_eq!`). */
  function StridesForDims(policy: Strides, dims: Dims, fortranStrides: Dims -> Dims): (s: Dims)
    requires Valid(dims)
    requires policy.Custom? ==> Valid(policy.strides) && Ndim(policy.strides) == Ndim(dims)
    ensures policy.C? ==> Valid(s) && Ndim(s) == Ndim(dims)
    ensures policy.C? && AllNonZero(AsSlice(dims)) ==> AsSlice(s) == RowMajorStrides(AsSlice(dims))
    ensures policy.C? && !AllNonZero(AsSlice(dims)) ==> forall i :: 0 <= i < Ndim(s) ==> AsSlice(s)[i] == 0
    ensures policy.F? ==> s == fortranStrides(dims)
    ensures policy.Custom? ==> s == policy.strides
  {
    match policy
    case C => DefaultStrides(dims)
    case F => fortranStrides(dims)
    case Custom(strides) => strides
  }

  /** `Shape::size`: the element count of the shape's dimensions, whatever
      its policy. */
  function ShapeSize(s: Shape): (n: nat)
    requires ValidShape(s)
    ensures n == Product(AsSlice(s.dims))
    ensures n == 0 <==> !AllNonZero(AsSlice(s.dims))
  {
    ProductZeroIff(AsSlice(s.dims));
    Size(s.dims)
  }

  /** `(2, 3).f()` has dimensions `[2, 3]` and the column-major policy;
      `(2, 3)` resolved row-major gets strides `[3, 1]`. */
  lemma BuilderExamples(fortranStrides: Dims -> Dims)
    ensures ColumnMajor(FromLiteral(TupleLit([2, 3]))) == Shape(Fixed([2, 3]), F)
    ensures StridesForDims(IntoShape(FromLiteral(TupleLit([2, 3]))).order, Fixed([2, 3]), fortranStrides)
      == Fixed([3, 1])
  {
    DefaultStridesExamples();
  }
}
