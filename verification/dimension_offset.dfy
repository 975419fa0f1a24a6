/** `offset_from_low_addr_ptr_to_logical_ptr`: how far a tensor's logical
    base pointer lies above the lowest address its strides can reach. */
module DimensionOffset {
  import opened Dimension

  /** 2^63: the bound of a signed pointer-sized integer. */
  const ISIZE_BOUND: int := 0x8000_0000_0000_0000
  /** 2^64: the modulus of an unsigned pointer-sized integer. */
  const USIZE_BOUND: int := 0x1_0000_0000_0000_0000

  /** `stride as isize`: a stride stored in the unsigned dimension type,
      read back as a two's-complement signed value. */
  function AsIsize(u: nat): (v: int)
    ensures -ISIZE_BOUND <= v < ISIZE_BOUND
    ensures u < ISIZE_BOUND ==> v == u
  {
    var w := u % USIZE_BOUND;
    if w < ISIZE_BOUND then w else w - USIZE_BOUND
  }

  /** How a negative stride is stored in the unsigned dimension type. */
  function FromIsize(v: int): (u: nat)
    requires -ISIZE_BOUND <= v < ISIZE_BOUND
    ensures u < USIZE_BOUND
    ensures AsIsize(u) == v
  {
    if v < 0 then v + USIZE_BOUND else v
  }

  /** What one axis adds to the offset: `-stride * (extent - 1)` when the
      stride is negative and the axis has more than one position. */
  function Contribution(dim: nat, stride: int): (c: nat)
    ensures stride >= 0 || dim <= 1 ==> c == 0
  {
    if stride < 0 && dim > 1 then (-stride) * (dim - 1) else 0
  }

  /** Reference definition: the contributions of the zipped axes, summed. */
  function SumContributions(dims: seq<nat>, strides: seq<int>): nat {
    if |dims| == 0 || |strides| == 0 then 0
    else Contribution(dims[0], strides[0]) + SumContributions(dims[1..], strides[1..])
  }

  /** The source's fold over `dims.zip(strides)`, left to right. */
  function FoldOffset(offset: int, dims: seq<nat>, strides: seq<int>): int
    decreases |dims|
  {
    if |dims| == 0 || |strides| == 0 then offset
    else
      var stride := strides[0];
      var next := if stride < 0 && dims[0] > 1 then offset - stride * (dims[0] - 1) else offset;
      FoldOffset(next, dims[1..], strides[1..])
  }

  /** The fold adds exactly the per-axis contributions to its start value. */
  lemma {:induction false} FoldIsSum(offset: int, dims: seq<nat>, strides: seq<int>)
    ensures FoldOffset(offset, dims, strides) == offset + SumContributions(dims, strides)
    decreases |dims|
  {
    if |dims| != 0 && |strides| != 0 {
      FoldIsSum(offset + Contribution(dims[0], strides[0]), dims[1..], strides[1..]);
    }
  }

  /** The strides of a dimension value read as signed integers. */
  function SignedStrides(strides: Dims): (s: seq<int>)
    requires Valid(strides)
    ensures |s| == Ndim(strides)
    ensures forall i :: 0 <= i < |s| ==> s[i] == AsIsize(AsSlice(strides)[i])
  {
    seq(Ndim(strides), i requires 0 <= i < Ndim(strides) => AsIsize(AsSlice(strides)[i]))
  }

  /** `offset_from_low_addr_ptr_to_logical_ptr`: the fold starts at 0 and,
      since it only ever adds non-negative amounts, the final cast to an
      unsigned offset loses nothing. */
  function OffsetFromLowAddrPtrToLogicalPtr(dims: Dims, strides: Dims): (off: nat)
    requires Valid(dims) && Valid(strides)
    ensures off == SumContributions(AsSlice(dims), SignedStrides(strides))
  {
    var o := FoldOffset(0, AsSlice(dims), SignedStrides(strides));
    FoldIsSum(0, AsSlice(dims), SignedStrides(strides));
    o
  }

  /** With no negative stride nothing is contributed. */
  lemma {:induction false} NoNegativeStrideNoContribution(dims: seq<nat>, strides: seq<int>)
    requires forall i :: 0 <= i < |strides| ==> strides[i] >= 0
    ensures SumContributions(dims, strides) == 0
  {
    if |dims| != 0 && |strides| != 0 {
      NoNegativeStrideNoContribution(dims[1..], strides[1..]);
    }
  }

  /** Strides that are non-negative as signed values (row-major strides
      among them) put the logical pointer at the low address. */
  lemma NonNegativeStridesZeroOffset(dims: Dims, strides: Dims)
    requires Valid(dims) && Valid(strides)
    requires forall i :: 0 <= i < Ndim(strides) ==> AsSlice(strides)[i] < ISIZE_BOUND
    ensures OffsetFromLowAddrPtrToLogicalPtr(dims, strides) == 0
  {
    NoNegativeStrideNoContribution(AsSlice(dims), SignedStrides(strides));
  }

  /** A 2 x 3 tensor reversed along axis 0 (strides -3 and 1) starts 3
      elements above its low address. */
  lemma ReversedRowsOffset()
    ensures OffsetFromLowAddrPtrToLogicalPtr(Fixed([2, 3]), Fixed([FromIsize(-3), 1])) == 3
  {
    var s := SignedStrides(Fixed([FromIsize(-3), 1]));
    assert s == [-3, 1];
    var d: seq<nat> := [2, 3];
    assert d[1..][1..] == [];
    assert SumContributions(d, s) == 3 + SumContributions(d[1..], s[1..]);
  }
}
