# omni-tensor core, modelled in Dafny

This project models the core of `omni-tensor`, an early n-dimensional array
library written in Rust. It has two layers.

**Shape and stride layer.**
- Dimension values come in two kinds: a fixed rank 0..=8 (`Dims<[Ix; k]>`), or the dynamic rank (`DynDims`). The dynamic rank stores up to four extents inline and more on the heap.
- Element count (`size`) and row-major `default_strides`.
- Rank metadata (`ndim`, `Smaller`, `Larger`).
- Conversions between shape literals and dimension values, and per-axis indexing.
- The dynamic rank's `unsqueeze`/`squeeze`.
- The type-level broadcast-rank operator `DimsMax`, as a function on ranks.
- The negative-stride offset `offset_from_low_addr_ptr_to_logical_ptr`.
- The shape builder's stride policies (C, F, custom).

**Storage and tensor layer.**
- Storage kinds:
  - owned storage: an allocation with `size` slots in use out of `capacity`;
  - reference-counted shared storage;
  - raw and borrowed views.
- Their trait operations: clone with pointer fix-up, `clone_from`, uniqueness, clone-on-write and conversions to owned storage.
- The `TensorBase` operations built on them: `clone`, `clone_from`, `to_owned`, `into_shared`, `to_shared`, `into_owned`.
- The host element-wise kernels and the CPU backend's `copy` and `fill`.

Modelling choices:

- **Pointers.** A pointer is an integer address. Each allocation records its `base`, and the offset of a tensor's pointer is `ptr - base`.
- **Memory slots.** A slot is `Uninit` or `Init(v)`. This makes it visible that `empty` allocates without writing anything.
- **Elements** are unbounded integers.
- **Fresh allocations and identities.** Where the library allocates, the new base address is a parameter (`newBase`). A new `Arc` gets an identity `newId` that is not yet in use.
- **Reference counts.** Every live `Arc<OwnedStorage>` lives in an `ArcHeap`, a map from identity to storage and holder count. Operations that change a count return the new heap. "Every other holder is untouched" is stated over this map.
- **Copied view elements.** `to_owned` copies a strided view's visible elements. Those elements are a parameter `elems` of length `Size(dims)`; see Left out.
- **Two kinds of panic.**
  - A panic that is a caller's obligation becomes a `requires`. This covers an index out of range, a `debug_assert!`, and a division by zero.
  - A defect of the code becomes `None` in the as-written model. That covers the panics it causes (an unsigned underflow, a slice bound overrun) and the read past `other`'s allocation in `OwnedStorage::clone_from`, which is undefined behaviour rather than a panic.
- **Integer widths** are modelled only where they matter: a `usize` stride is read as an `isize` in two's complement, and Rust's integer division truncates toward zero.

Modules, one per source component: `Common` (Option, Result), `MemOps`,
`HostOps`, `DynDims`, `Dimension`, `DimensionOffset`, `Conversion`,
`DimsMax`, `ShapeBuilder`, `OwnedStorage`, `ViewStorage`, `Storage`,
`Tensor`.

The source has three overlapping generations of storage traits: a `Backend` type parameter, an `Allocator` type parameter and an `Ops` type parameter. Here they are one opaque backend token (`MemOps.Backend`). The `ops` field of `TensorBase` carries no state and is dropped.

## Model

| member | source | states |
|---|---|---|
| MemOps.Fill | src/backend/cpu/mem_ops.rs:23-26 | `fill(p, v, n)` leaves exactly slots `[p, p+n)` holding `v`; every other slot keeps its value |
| MemOps.FillNothing | src/backend/cpu/mem_ops.rs:23-26 | a fill of zero slots leaves memory unchanged |
| MemOps.Copy | src/backend/cpu/mem_ops.rs:4-6 | a non-overlapping copy of `n` slots makes `dst[k] = src[k]` for `k < n` and leaves every other slot (the source range included) unchanged |
| HostOps.ZipBinaryOp | src/ops/host.rs:10-21 | `out[i] = f(lhs[i], rhs[i])` for every `i` below the shortest of the three lengths; the rest of `out` and its length are unchanged |
| HostOps.FillSlice | src/ops/host.rs:24-26 | every element of `out` becomes `value`, length unchanged |
| HostOps.Add | src/ops/host.rs:28-35 | element-wise sum on the zipped prefix, the rest of `out` unchanged |
| HostOps.Sub | src/ops/host.rs:37-44 | element-wise difference on the zipped prefix, the rest of `out` unchanged |
| HostOps.Mul | src/ops/host.rs:46-53 | element-wise product on the zipped prefix, the rest of `out` unchanged |
| HostOps.Div | src/ops/host.rs:55-62 | element-wise truncating quotient on the zipped prefix; every divisor the zip reaches must be non-zero |
| HostOps.TruncDivRoundsTowardZero | src/ops/host.rs:61 | integer `/` truncates toward zero: -7/2 = -3, 7/-2 = -3, -7/-2 = 3 |
| DynDims.EqIsContentEquality | src/dimension/dyn_dims.rs:43-54 | `PartialEq` holds exactly when the logical extents are equal, for every pair of representations |
| DynDims.Eq | src/dimension/dyn_dims.rs:43-54 | two inline values compare their lengths and the first `len` cells only; every other pair compares logical extents; either way the result holds exactly when the logical extents are equal |
| DynDims.EqAcrossRepresentations | src/dimension/dyn_dims.rs:43-54 | the same extents stored inline and on the heap compare equal |
| DynDims.Default | src/dimension/dyn_dims.rs:56-60 | the default dynamic dimension is inline with no extents (rank 0) |
| DynDims.UnsqueezeAsWritten | src/dimension/dyn_dims.rs:86-102 | for `axis < len`: panics exactly when `axis < 4 <= len`; otherwise inserts a 1 at `axis` with the prefix kept and the suffix shifted right; the result is inline exactly when `axis < 4` |
| DynDims.Unsqueeze | src/dimension/dyn_dims.rs:86-102 | inserts a 1 at `axis`, prefix kept and suffix shifted; inline exactly when the new rank fits in 4 |
| DynDims.SqueezeAsWritten | src/dimension/dyn_dims.rs:104-135 | panics exactly for inline lengths 3..4 with `axis >= 2`; removes position `axis` when `axis == 0`, on the heap, or for length <= 2; for inline lengths 3..4 with `axis == 1` it drops the last extent instead; the representation kind is kept |
| DynDims.Squeeze | src/dimension/dyn_dims.rs:104-135 | removes exactly position `axis` and keeps the representation kind |
| DynDims.InsertThenRemove | src/dimension/dyn_dims.rs:86-135 | removing the extent just inserted at the same axis gives the original extents |
| DynDims.SqueezeUnsqueeze | src/dimension/dyn_dims.rs:86-135 | `squeeze(axis)` after `unsqueeze(axis)` gives back equal extents (and `PartialEq` holds) |
| DynDims.SqueezeUnsqueezeAsWritten | src/dimension/dyn_dims.rs:86-135 | as written, the round trip gives back the original on the heap path and for `axis == 0` |
| DynDims.SqueezeUnsqueezeAsWrittenLosesExtent | src/dimension/dyn_dims.rs:86-126 | as written, `[1,2,3]` unsqueezed at 1 gives `[1,1,2,3]`, and squeezing that at 1 gives `[1,1,2]` |
| DynDims.AsWrittenPanics | src/dimension/dyn_dims.rs:86-126 | as written, squeezing `[1,2,3]` at 2 underflows, and unsqueezing five heap extents at 0 overruns the inline array |
| Dimension.Ndim | src/dimension/dimensions_trait.rs:46-57 | `ndim` is the number of extents, and equals the type's `NDIM` when that is `Some(k)` |
| Dimension.WithSlice | src/dimension/dyn_dims.rs:31-41 | writing extents back through `as_slice_mut` keeps the type and, for a dynamic value, the representation |
| Dimension.ProductZeroIff | src/dimension/dimensions_trait.rs:23-25 | the product of the extents is 0 exactly when one extent is 0 |
| Dimension.SizeIsProduct | src/dimension/dimensions_trait.rs:23-25 | `size` of rank 0 is 1; `size` is 0 exactly when an extent is 0; for rank 2 it is `a*b` |
| Dimension.Size | src/dimension/dimensions_trait.rs:23-25 | the product of the extents: 1 for rank 0, and 0 exactly when some extent is 0 |
| Dimension.DefaultOf | src/dimension/dyn_dims.rs:56-60 | `Self::default()` is all-zero extents of the type's rank, and rank 0 for the dynamic type |
| Dimension.DefaultStridesAsWritten | src/dimension/dimensions_trait.rs:27-43 | with a zero extent the result is `Self::default()`; for a static rank with no zero extent it is the row-major strides `s[i] = product of e[j], j > i`; for the dynamic type it always has rank 0 |
| Dimension.DefaultStrides | src/dimension/dimensions_trait.rs:27-43 | same type and rank as `d`; all-zero strides when an extent is 0, otherwise the row-major strides |
| Dimension.DefaultStridesShape | src/dimension/dimensions_trait.rs:31-40 | with no zero extent the last stride is 1 and each earlier stride is the next extent times the next stride |
| Dimension.DefaultStridesExamples | src/dimension/dimensions_trait.rs:27-43 | `(4,0,3)` gets `(0,0,0)`, and `(2,3)` gets `(3,1)` |
| Dimension.RankNeighbours | src/dimension/dimensions_trait.rs:46-302 | `Smaller`/`Larger` undo each other except at rank 0 and the dynamic type; they step the rank by one for static ranks |
| Dimension.Smaller | src/dimension/dimensions_trait.rs:51-300 | the smaller neighbour is always a fixed rank: rank k > 0 has k - 1 axes, and rank 0 is its own smaller neighbour |
| Dimension.Larger | src/dimension/dimensions_trait.rs:53-302 | the larger neighbour is the dynamic type exactly for rank 8 and the dynamic type itself; rank k < 8 has k + 1 axes |
| DimensionOffset.AsIsize | src/dimension/mod.rs:28 | `stride as isize` lies in the signed range and is the identity below 2^63 |
| DimensionOffset.FromIsize | src/dimension/mod.rs:28 | a negative stride stored as `usize` reads back as itself |
| DimensionOffset.FoldIsSum | src/dimension/mod.rs:27-34 | the fold adds exactly the per-axis contributions to its start value |
| DimensionOffset.OffsetFromLowAddrPtrToLogicalPtr | src/dimension/mod.rs:25-37 | the offset is the sum over axes with negative stride and extent > 1 of `-stride * (extent - 1)`, hence non-negative |
| DimensionOffset.NoNegativeStrideNoContribution | src/dimension/mod.rs:29-33 | axes with non-negative strides contribute nothing |
| DimensionOffset.NonNegativeStridesZeroOffset | src/dimension/mod.rs:25-37 | with no stride negative as a signed value the offset is 0 |
| DimensionOffset.ReversedRowsOffset | src/dimension/mod.rs:25-37 | extents `(2,3)` with strides `(-3,1)` give offset 3 |
| Conversion.IntoDimension | src/dimension/conversion.rs:170-314 | `()` gives rank 0, `Ix` rank 1, a k-tuple or `[Ix; k]` rank k with components in order, a dimension value itself |
| Conversion.IntoPattern | src/dimension/dimensions_trait.rs:46-311 | `into_pattern` followed by `into_dimension` gives back the same dimension |
| Conversion.PatternRoundTrip | src/dimension/dimensions_trait.rs:351-356 | a tuple, scalar or unit pattern survives `into_dimension` then `into_pattern` |
| Conversion.Index | src/dimension/conversion.rs:10-161 | `d[i]` is extent `i` of `as_slice`, for `i < ndim` only |
| Conversion.IndexMut | src/dimension/conversion.rs:19-168 | storing `v` at axis `i` and reading back: `d[i]` gives `v` and every other `d[j]` gives its old extent; type and rank are kept |
| Conversion.IndexMutSameValue | src/dimension/conversion.rs:19-168 | storing back the value just read changes no extent |
| ShapeBuilder.IntoShape | src/shape_builder.rs:78-104 | a literal becomes its dimension value with policy C; a shape is returned unchanged |
| ShapeBuilder.SetF | src/shape_builder.rs:89-113 | `set_f(b)` gives policy F when `b`, C otherwise, with the dimensions unchanged |
| ShapeBuilder.ColumnMajor | src/shape_builder.rs:85-108 | `f()` is exactly `set_f(true)`: policy F, dimensions unchanged |
| ShapeBuilder.WithStrides | src/shape_builder.rs:93-120 | `strides(s)` keeps the dimensions and sets the policy to `Custom(s)` |
| ShapeBuilder.SetFLastWins | src/shape_builder.rs:110-113 | setting the policy twice keeps only the last choice |
| ShapeBuilder.StridesForDims | src/shape_builder.rs:40-58 | C resolves to row-major strides (all zero with a zero extent); F defers to the column-major strides; `Custom(s)` is `s` itself, of the same rank as the dimensions |
| ShapeBuilder.ShapeSize | src/shape_builder.rs:34-36 | `Shape::size` is the product of the extents and is 0 exactly when an extent is 0 |
| ShapeBuilder.BuilderExamples | src/shape_builder.rs:78-91 | `(2,3).f()` is dims `[2,3]` with F; `(2,3)` resolved row-major gets `[3,1]` |
| DimsMax.DimsMaxOf | src/dimension/dims_max.rs:22-36 | the output, when an impl applies, is one of the two inputs |
| DimsMax.DimsMaxTotal | src/dimension/dims_max.rs:38-82 | an impl applies to every one of the 100 ordered pairs of the ten types |
| DimsMax.DimsMaxIdempotent | src/dimension/dims_max.rs:22-24 | a type against itself is itself |
| DimsMax.DimsMaxSymmetric | src/dimension/dims_max.rs:26-36 | both argument orders give the same output |
| DimsMax.DimsMaxStatic | src/dimension/dims_max.rs:38-80 | static ranks `j`, `k` give rank `max(j, k)` |
| DimsMax.DimsMaxDynamic | src/dimension/dims_max.rs:38-82 | any type against the dynamic type gives the dynamic type |
| OwnedStorage.Empty | src/storage/owned_storage.rs:186-198 | `size = capacity = n`, backend kept, no slot written, and the returned pointer is the base |
| OwnedStorage.Fill | src/storage/owned_storage.rs:212-216 | every slot in use holds `v`; the allocation and the slots past `size` are untouched |
| OwnedStorage.ReleaseMemory | src/storage/owned_storage.rs:46-56 | a no-op when capacity is 0, otherwise size and capacity become 0 |
| OwnedStorage.ReleaseMemoryIdempotent | src/storage/owned_storage.rs:46-56 | releasing twice is releasing once |
| OwnedStorage.Clone | src/storage/owned_storage.rs:60-73 | a new allocation with equal slots in use, equal size, `capacity = size`, and the same backend |
| OwnedStorage.CloneFromAsWritten | src/storage/owned_storage.rs:75-96 | the allocation is reused exactly when `self.capacity >= other.capacity`, and then the first `self.size` slots come from `other` and the rest keep `self`'s values; it reads past `other`'s allocation exactly when `self.size > other.capacity`; otherwise it reallocates with `capacity = other.size` and equal contents; size and backend come from `other` |
| OwnedStorage.CloneFromAsWrittenCorrectWhenLarger | src/storage/owned_storage.rs:75-96 | as written, the result holds `other`'s slots when it reallocates or when `other.size <= self.size <= other.capacity` |
| OwnedStorage.CloneFromAsWrittenLeavesStaleTail | src/storage/owned_storage.rs:76-81 | as written, `self = [9, _]` (size 1, capacity 2) cloned from `other = [1, 2]` ends as `[1, 9]` |
| OwnedStorage.CloneFrom | src/storage/owned_storage.rs:75-96 | the result holds exactly `other`'s slots, in `self`'s allocation when `self.capacity >= other.capacity`, otherwise in a fresh one of `other.size` slots |
| OwnedStorage.CloneFromMatchesClone | src/storage/owned_storage.rs:59-96 | `clone_from` leaves the same slots in use as `clone` of `other` |
| OwnedStorage.CloneWithPtr | src/storage/owned_storage.rs:122-132 | the clone has equal contents and the pointer keeps its offset, so an in-bounds pointer stays in bounds |
| OwnedStorage.CloneFromWithPtrAsWritten | src/storage/owned_storage.rs:134-145 | over `clone_from` as written: `None` exactly when the copy would read past `other`; otherwise the new pointer has the offset `ptr` had within `other`, and on the reusing path only the first `self.size` slots come from `other` |
| OwnedStorage.CloneFromWithPtr | src/storage/owned_storage.rs:134-145 | the same pointer fix-up over the corrected `clone_from` (the one the rest of the model uses): `self` ends with `other`'s contents, and the new pointer has the offset `ptr` had within `other` |
| OwnedStorage.IntoShared | src/storage/owned_storage.rs:218-220 | the storage moves uncopied into a new `Arc` with one holder; no other `Arc` changes |
| OwnedStorage.Acquire | src/storage/owned_storage.rs:225-229 | cloning the shared storage adds one holder to it and changes nothing else |
| OwnedStorage.Release | src/storage/owned_storage.rs:99-103 | dropping one holder: with several holders the count goes down by one; the last holder's drop removes the storage (its `release_memory`); no other `Arc` changes |
| OwnedStorage.AcquireRelease | src/storage/owned_storage.rs:225-229 | a clone that is dropped again leaves every count as it was |
| ViewStorage.IsPointerInbounds | src/storage/view_storage.rs:117-126 | every view accepts every pointer |
| ViewStorage.CloneWithPtr | src/storage/view_storage.rs:59-65 | a view clone is the same view (same allocator) and the same pointer |
| ViewStorage.TryIsUnique | src/storage/view_storage.rs:102-115 | the raw mutable view answers `None`, the borrowed mutable view `Some(true)` |
| Storage.IsPointerInbounds | src/storage/owned_storage.rs:105-114 | owned and shared storage accept `base <= p <= base + size`, end inclusive; views accept anything |
| Storage.BackendOf | src/storage/owned_storage.rs:116-118 | owned storage gives its own backend, shared storage the backend of the storage it shares (lines 239-241), a view its allocator |
| Storage.Drop | src/storage/traits.rs:17-23 | the drop of the old `self` in `*self = data`: shared storage loses one holder and is freed with its last one, owned storage and views leave the heap as it is, and no other `Arc` changes |
| Storage.CloneWithPtr | src/storage/owned_storage.rs:244-248 | shared storage gains a holder and keeps the pointer; owned storage is copied with the offset kept; views keep the pointer; the backend is kept throughout |
| Storage.CloneFromWithPtrAsWritten | src/storage/owned_storage.rs:134-145 | dispatch over the as-written owned override: `None` exactly when owned storage would read past `other`; owned storage keeps `ptr`'s offset within `other` and, when it reuses its allocation, copies only `self.size` slots; shared storage and views behave as in the default |
| Storage.CloneFromWithPtr | src/storage/traits.rs:17-23 | the default clones `other` with `ptr`, drops the old `self` (one holder fewer) and returns the clone's pointer; owned storage (corrected `clone_from`) reuses its allocation with `other`'s contents and offset |
| Storage.TryIsUnique | src/storage/owned_storage.rs:279-282 | owned storage is unique; shared storage is unique exactly when it has one holder |
| Storage.StorageMutKnowsUniqueness | src/storage/traits.rs:73-75 | every `StorageMut` kind answers `Some`, so the unwrap in `is_unique` cannot panic |
| Storage.IsUnique | src/storage/traits.rs:73-75 | `is_unique` holds exactly when the storage is not shared with another holder |
| Tensor.ToOwned | src/tensor.rs:34-50 | a new owned allocation of exactly `size(dims)` elements from the same backend, pointer at its base, dims and strides copied |
| Tensor.IntoShared | src/tensor.rs:52-65 | ptr, dims and strides kept; the storage is wrapped with one holder without a copy; the offset is unchanged |
| Tensor.TryEnsureUnique | src/storage/owned_storage.rs:250-277 | nothing changes unless the storage is shared with another holder; then the narrow path (`size(dims) <= size/2`) holds exactly the visible elements at offset 0, and the wide path holds a copy of the whole storage at the same offset; the old `Arc` loses one holder, no other `Arc` changes, and the tensor ends unique |
| Tensor.EnsureUnique | src/storage/traits.rs:65-71 | after `ensure_unique`, `is_unique` holds and dims and strides are unchanged |
| Tensor.IntoOwned | src/storage/owned_storage.rs:289-304 | owned tensors are returned as is and views are copied; for shared storage, after `ensure_unique` the storage has exactly one holder, so the unwrap cannot fail, and the storage moves out of the heap; a single holder keeps pointer and storage, and with several holders the result holds the compacted elements at offset 0 (narrow view) or the old contents at the old offset (wide view), one holder fewer on the old storage |
| Tensor.TryIntoOwnedNocopy | src/storage/owned_storage.rs:306-324 | `Ok` exactly for owned storage or a single holder, with ptr, dims and strides unchanged; otherwise `Err` with the tensor unchanged |
| Tensor.Clone | src/tensor.rs:74-85 | dims and strides equal; owned storage copied with the offset kept; shared storage gains a holder with the same pointer; a view is the same tensor |
| Tensor.ToShared | src/storage/traits.rs:51-60 | shared storage gains a holder without a copy; other storage is copied into a new `Arc` with one holder, pointer at offset 0 |
| Tensor.CloneFromAsWritten | src/tensor.rs:90-97 | over the as-written storage `clone_from`: `None` exactly when owned storage would read past `other`; otherwise dims and strides come from `other`, and the pointer is fixed up from `self.ptr`, so for owned storage its offset is `self.ptr - other.base`, while a reused allocation gets only `self.size` slots from `other`; for shared storage and views the pointer stays `self.ptr` |
| Tensor.CloneFromAsWrittenMovesPointer | src/tensor.rs:90-93 | as written, cloning an owned tensor at offset 2 into one at offset 0 gives offset -100, outside the storage, where `clone` gives 2 |
| Tensor.CloneFromAsWrittenLeavesStaleTail | src/tensor.rs:90-93 | as written, an owned tensor holding `[9, 9]` (size 1, capacity 2) cloned from one holding `[1, 2]` ends holding `[1, 9]`, where `clone` gives `[1, 2]` |
| Tensor.CloneFromAsWrittenOverReads | src/tensor.rs:90-93 | as written, an owned tensor of size 3 cloned from one of size and capacity 2 reads past `other`'s allocation |
| Tensor.CloneFrom | src/tensor.rs:87-97 | the result is well formed, with `other`'s dims, strides, contents and pointer offset |
| Tensor.CloneFromIsAssignClone | src/tensor.rs:87-97 | `clone_from` is `*self = other.clone()`: the same contents and offset as the clone, and for shared storage and views the clone itself with the old `self` dropped |

## Left out

- Allocation and deallocation: `alloc` returns a fresh region whose base address is a parameter, and `dealloc` only ends the old allocation. `handle_alloc_error` is not modelled.
- `Layout`, `NonNull`, and byte counts versus element counts: all counts are element counts. `clone` and the reallocating path of `clone_from` pass `layout.size()`, a byte count, to an element-count `copy`; that over-count is not modelled.
- Elements of zero size: the `elem_size == 0` branches, which use an offset of 0, are not modelled.
- Integer overflow of `size`, of `cum_prod` and of the offset fold: extents and products are unbounded.
- Floating-point element types: elements are integers.
- `Send`, `Sync` and atomic reference counting: the count is a plain number, and there is no concurrency.
- `to_owned_with_ptr`, which gathers a view's visible elements. It is `unimplemented!` for views and not defined for owned storage. `Tensor.ToOwned` takes the gathered elements as `elems`, so the gathering order is not modelled.
- `fortran_strides`, `is_contiguous` and `zeros`: the repository does not define them. `fortran_strides` is only called (src/shape_builder.rs:46), `is_contiguous` appears nowhere, and `DynDims::zeros` (src/dimension/dyn_dims.rs:165-167) only calls itself. `ShapeBuilder.StridesForDims` takes the column-major strides as a function parameter.
- `ShapeBuilder.StridesForDims` resolves `C` with the corrected `Dimension.DefaultStrides`. `Dimension.DefaultStridesAsWritten` covers the source's dynamic-rank result.
- `Strides::Custom` holds a dimension value here; the source's `Self::Strides` type parameter is not modelled.
- `OwnedStorage::from_raw_ptr`, `as_ptr`, `as_mut_ptr` and `raw_dims` are plain accessors and are not modelled.
- The `ops` field of `TensorBase` is not modelled: it carries no state.
- `src/tensor2.rs` is not part of the crate's module tree. `src/tensor_view.rs` only builds records. `src/allocator`, `src/backend/mod.rs`, `src/ops/mod.rs` and `src/error.rs` only declare traits and types. None of these is part of this model.
- The duplicate `Dimensions for DynDims` impls, in `dimensions_trait.rs` and `dyn_dims.rs`, are one definition here.
- HostOps.TruncDiv: has no contract of its own (a general quotient contract is nonlinear). `HostOps.TruncDivRoundsTowardZero` pins down its rounding on the signed cases.
- Storage.CloneWithPtr: the "`ptr` must point inside the current storage" safety requirement is not a precondition. Instead the contract states that an in-bounds pointer stays in bounds, so the as-written `clone_from` that breaks the requirement can still be modelled.
- DimsMax.ListedIsRankOrder: has no row of its own. It is the fact that the 45 listed pairs are exactly the increasing pairs, which the DimsMax lemmas rely on.

## Findings

| source | as written | input that shows it | evidently intended | confidence | as-written member | corrected member |
|---|---|---|---|---|---|---|
| src/dimension/dyn_dims.rs:114-126 | inline `squeeze` for 3 or 4 extents sets `out[k] = x[k + 1 - axis]` | `[1,1,2,3]` squeezed at axis 1 gives `[1,1,2]`, dropping the last extent; `[1,2,3]` at axis 2 underflows `1 - axis` | remove exactly position `axis` | not executed | DynDims.SqueezeAsWritten | DynDims.Squeeze |
| src/dimension/dyn_dims.rs:89-99 | `unsqueeze` takes the inline path whenever `axis < 4` and copies `out[axis+1..=len]` into a 4-cell array | `[1,2,3,4,5]` (heap) unsqueezed at axis 0 overruns the array | inline only when the new rank fits in 4 cells, heap otherwise | not executed | DynDims.UnsqueezeAsWritten | DynDims.Unsqueeze |
| src/dimension/dimensions_trait.rs:27-43 | `default_strides` starts from `Self::default()`, which for `DynDims` is the empty inline value (dyn_dims.rs:56-60), so no stride is ever written | any dynamic dimension of rank >= 1, e.g. `[2,3]`, gets rank-0 strides | strides of the same rank as the dimension (`[3,1]`) | not executed | Dimension.DefaultStridesAsWritten | Dimension.DefaultStrides |
| src/storage/owned_storage.rs:75-96 | the reusing path of `clone_from` copies `self.size` elements, not `other.size` | `self` of size 1 and capacity 2 holding `[9, _]`, with `other = [1, 2]`, ends as `[1, 9]`; with `self.size > other.capacity` the copy reads past `other` | copy `other.size` elements | not executed | OwnedStorage.CloneFromAsWritten | OwnedStorage.CloneFrom |
| src/tensor.rs:90-97 | `clone_from` passes `self.ptr` to `clone_from_with_ptr`, which measures the offset from `other`'s base | owned `self` at base 0, offset 0; `other` at base 100, offset 2; the result's pointer is at offset -100, outside the storage | pass `other.ptr`, so the result has `other`'s offset, as `*self = other.clone()` would | not executed | Tensor.CloneFromAsWritten, Tensor.CloneFromAsWrittenMovesPointer | Tensor.CloneFrom |
