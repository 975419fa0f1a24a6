/** `TensorBase`: a storage, a pointer to the logical first element, and
    the dims and strides of the view. The element-wise `ops` field carries
    no state and is not modelled.

    Operations that copy elements out of a strided view take the copied
    elements as a parameter `elems` (the gathering itself belongs to
    `to_owned_with_ptr`, which is not part of this model); operations that
    allocate take the new base address `newBase` and a fresh reference-count
    identity `newId`. */
module Tensor {
  import opened Common
  import opened MemOps
  import opened Dimension
  import OS = OwnedStorage
  import VS = ViewStorage
  import St = Storage

  datatype TensorBase = TensorBase(storage: St.Storage, ptr: int, dims: Dims, strides: Dims)

  /** A well-formed tensor: valid storage and dims, strides of the dims'
      rank, and a pointer the storage accepts. */
  predicate Wf(t: TensorBase, h: OS.ArcHeap) {
    && St.StorageValid(t.storage, h)
    && Valid(t.dims) && Valid(t.strides) && RankOf(t.dims) == RankOf(t.strides)
    && St.IsPointerInbounds(t.storage, h, t.ptr)
  }

  /** The base address of owned or shared storage. */
  function BaseOf(st: St.Storage, h: OS.ArcHeap): int
    requires St.StorageValid(st, h) && !st.View?
  {
    if st.Owned? then st.owned.base else h[st.id].storage.base
  }

  /** The pointer's offset from the start of owned or shared storage. */
  function Offset(t: TensorBase, h: OS.ArcHeap): int
    requires St.StorageValid(t.storage, h) && !t.storage.View?
  {
    t.ptr - BaseOf(t.storage, h)
  }

  /** The slots in use of owned or shared storage. */
  function Contents(st: St.Storage, h: OS.ArcHeap): seq<Cell>
    requires St.StorageValid(st, h) && !st.View?
  {
    if st.Owned? then OS.AsSlice(st.owned) else OS.AsSlice(h[st.id].storage)
  }

  /** `to_owned`: a fresh owned allocation of exactly `Size(dims)` elements
      holding `elems`, from the same backend, with the pointer at its base
      and dims and strides copied. */
  function ToOwned(t: TensorBase, h: OS.ArcHeap, elems: seq<Cell>, newBase: int): (r: TensorBase)
    requires St.StorageValid(t.storage, h) && Valid(t.dims)
    requires |elems| == Size(t.dims)
    ensures r.storage.Owned? && OS.Valid(r.storage.owned)
    ensures OS.AsSlice(r.storage.owned) == elems && r.storage.owned.capacity == Size(t.dims)
    ensures r.storage.owned.backend == St.BackendOf(t.storage, h)
    ensures r.ptr == r.storage.owned.base == newBase
    ensures r.dims == t.dims && r.strides == t.strides
    ensures Wf(t, h) ==> Wf(r, h)
  {
    var (s, p) := OS.Empty(|elems|, St.BackendOf(t.storage, h), newBase);
    TensorBase(St.Owned(s.(data := elems)), p, t.dims, t.strides)
  }

  /** `into_shared`: the owned storage moves, uncopied, into a new `Arc`
      with one holder; pointer, dims and strides are kept. */
  function IntoShared(t: TensorBase, h: OS.ArcHeap, newId: nat): (r: (TensorBase, OS.ArcHeap))
    requires St.StorageValid(t.storage, h) && t.storage.Owned? && newId !in h
    ensures r.0.storage == St.Shared(newId)
    ensures r.0.ptr == t.ptr && r.0.dims == t.dims && r.0.strides == t.strides
    ensures r.1.Keys == h.Keys + {newId} && r.1[newId] == OS.ArcCell(t.storage.owned, 1)
    ensures forall j :: j in h ==> r.1[j] == h[j]
    ensures Wf(t, h) ==> Wf(r.0, r.1) && Offset(r.0, r.1) == Offset(t, h)
  {
    (t.(storage := St.Shared(newId)), OS.IntoShared(t.storage.owned, h, newId))
  }

  /** `try_ensure_unique`. Only shared storage with more than one holder
      changes. When the view covers at most half of the storage, only its
      elements are copied (`to_owned` then `into_shared`); otherwise the
      whole storage is cloned into a new `Arc` (`Arc::make_mut`) and the
      pointer keeps its offset. Either way the old `Arc` loses one holder,
      no other `Arc` changes, and the tensor ends as the sole holder of its
      storage. */
  function TryEnsureUnique(t: TensorBase, h: OS.ArcHeap, elems: seq<Cell>, newId: nat, newBase: int): (r: (TensorBase, OS.ArcHeap))
    requires Wf(t, h) && St.HasRawMut(t.storage)
    requires newId !in h && |elems| == Size(t.dims)
    ensures Wf(r.0, r.1) && St.SameKind(t.storage, r.0.storage)
    ensures r.0.dims == t.dims && r.0.strides == t.strides
    ensures !t.storage.Shared? ==> r == (t, h)
    ensures r.1.Keys <= h.Keys + {newId}
    ensures t.storage.Shared? ==> St.TryIsUnique(r.0.storage, r.1) == Some(true)
    ensures t.storage.Shared? && h[t.storage.id].rc == 1 ==> r == (t, h)
    ensures t.storage.Shared? && h[t.storage.id].rc > 1 ==>
      var id := t.storage.id;
      && r.0.storage.id == newId
      && id in r.1 && r.1[id] == h[id].(rc := h[id].rc - 1)
      && (forall j :: j in h && j != id ==> j in r.1 && r.1[j] == h[j])
    ensures t.storage.Shared? && h[t.storage.id].rc > 1 && Size(t.dims) <= h[t.storage.id].storage.size / 2 ==>
      && Contents(r.0.storage, r.1) == elems
      && Offset(r.0, r.1) == 0
    ensures t.storage.Shared? && h[t.storage.id].rc > 1 && Size(t.dims) > h[t.storage.id].storage.size / 2 ==>
      && Contents(r.0.storage, r.1) == Contents(t.storage, h)
      && Offset(r.0, r.1) == Offset(t, h)
  {
    match t.storage
    case Shared(id) =>
      if h[id].rc == 1 then (t, h)
      else if Size(t.dims) <= h[id].storage.size / 2 then
        var (s, h1) := IntoShared(ToOwned(t, h, elems, newBase), h, newId);
        (s, OS.Release(h1, id))
      else
        var c := OS.Clone(h[id].storage, newBase);
        var h1 := OS.Release(OS.IntoShared(c, h, newId), id);
        (t.(storage := St.Shared(newId), ptr := c.base + (t.ptr - h[id].storage.base)), h1)
    case _ => (t, h)
  }

  /** `ensure_unique`: `try_ensure_unique` on a storage that implements
      `StorageMut`; afterwards `is_unique` holds. */
  function EnsureUnique(t: TensorBase, h: OS.ArcHeap, elems: seq<Cell>, newId: nat, newBase: int): (r: (TensorBase, OS.ArcHeap))
    requires Wf(t, h) && St.HasStorageMut(t.storage)
    requires newId !in h && |elems| == Size(t.dims)
    ensures Wf(r.0, r.1) && St.HasRawMut(r.0.storage)
    ensures St.TryIsUnique(r.0.storage, r.1).Some? && St.IsUnique(r.0.storage, r.1)
    ensures r.0.dims == t.dims && r.0.strides == t.strides
  {
    TryEnsureUnique(t, h, elems, newId, newBase)
  }

  /** `into_owned`. Owned storage is returned as it is and a view is copied
      with `to_owned`. Shared storage is first made unique; the unwrap of
      the `Arc` that follows then always succeeds (the storage has exactly
      one holder), and the storage moves out of the heap, holding the
      elements and offset the clone-on-write step left. */
  function IntoOwned(t: TensorBase, h: OS.ArcHeap, elems: seq<Cell>, newId: nat, newBase: int): (r: (TensorBase, OS.ArcHeap))
    requires Wf(t, h) && St.HasStorage(t.storage)
    requires newId !in h && |elems| == Size(t.dims)
    ensures Wf(r.0, r.1) && r.0.storage.Owned?
    ensures r.0.dims == t.dims && r.0.strides == t.strides
    ensures t.storage.Owned? ==> r == (t, h)
    ensures t.storage.View? ==> r.0 == ToOwned(t, h, elems, newBase) && r.1 == h
    ensures t.storage.Shared? ==>
      var id := t.storage.id;
      && (h[id].rc == 1 ==> r.0.storage.owned == h[id].storage && r.0.ptr == t.ptr && r.1 == h - {id})
      && (h[id].rc > 1 ==> newId !in r.1 && id in r.1 && r.1[id].rc == h[id].rc - 1)
      && (forall j :: j in h && j != id ==> j in r.1 && r.1[j] == h[j])
    ensures t.storage.Shared? ==>
      var (u, h1) := EnsureUnique(t, h, elems, newId, newBase);
      u.storage.Shared? && u.storage.id in h1 && h1[u.storage.id].rc == 1
    ensures t.storage.Shared? && h[t.storage.id].rc > 1 && Size(t.dims) <= h[t.storage.id].storage.size / 2 ==>
      && Contents(r.0.storage, r.1) == elems
      && Offset(r.0, r.1) == 0
    ensures t.storage.Shared? && h[t.storage.id].rc > 1 && Size(t.dims) > h[t.storage.id].storage.size / 2 ==>
      && Contents(r.0.storage, r.1) == Contents(t.storage, h)
      && Offset(r.0, r.1) == Offset(t, h)
  {
    match t.storage
    case Owned(_) => (t, h)
    case View(_) => (ToOwned(t, h, elems, newBase), h)
    case Shared(_) =>
      var (u, h1) := EnsureUnique(t, h, elems, newId, newBase);
      var id := u.storage.id;
      (TensorBase(St.Owned(h1[id].storage), u.ptr, u.dims, u.strides), h1 - {id})
  }

  /** `try_into_owned_nocopy`: succeeds, without copying, exactly for owned
      storage and for shared storage with one holder; otherwise the tensor
      comes back unchanged. */
  function TryIntoOwnedNocopy(t: TensorBase, h: OS.ArcHeap): (r: (Result<TensorBase, TensorBase>, OS.ArcHeap))
    requires Wf(t, h) && St.HasStorage(t.storage)
    ensures r.0.Ok? <==> t.storage.Owned? || (t.storage.Shared? && h[t.storage.id].rc == 1)
    ensures r.0.Err? ==> r.0.error == t && r.1 == h
    ensures r.0.Ok? ==>
      && r.0.value.storage.Owned? && Wf(r.0.value, r.1)
      && r.0.value.ptr == t.ptr && r.0.value.dims == t.dims && r.0.value.strides == t.strides
    ensures t.storage.Owned? ==> r == (Ok(t), h)
    ensures r.0.Ok? && t.storage.Shared? ==>
      r.0.value.storage.owned == h[t.storage.id].storage && r.1 == h - {t.storage.id}
  {
    match t.storage
    case Owned(_) => (Ok(t), h)
    case View(_) => (Err(t), h)
    case Shared(id) =>
      if h[id].rc == 1 then (Ok(t.(storage := St.Owned(h[id].storage))), h - {id})
      else (Err(t), h)
  }

  /** `clone`: dims and strides are copied and the storage is cloned with
      the pointer. Owned storage is copied and the pointer keeps its offset;
      shared storage gains a holder and a view is copied shallowly, both
      with the same pointer. */
  function Clone(t: TensorBase, h: OS.ArcHeap, newBase: int): (r: (TensorBase, OS.ArcHeap))
    requires Wf(t, h)
    ensures Wf(r.0, r.1) && St.SameKind(t.storage, r.0.storage)
    ensures r.0.dims == t.dims && r.0.strides == t.strides
    ensures t.storage.Owned? ==>
      && Contents(r.0.storage, r.1) == Contents(t.storage, h)
      && Offset(r.0, r.1) == Offset(t, h) && r.1 == h
    ensures t.storage.Shared? ==>
      && r.0 == t && r.1.Keys == h.Keys && r.1[t.storage.id].rc == h[t.storage.id].rc + 1
      && (forall j :: j in h && j != t.storage.id ==> r.1[j] == h[j])
    ensures t.storage.View? ==> r == (t, h)
  {
    var (st, p, h1) := St.CloneWithPtr(t.storage, t.ptr, h, newBase);
    (TensorBase(st, p, t.dims, t.strides), h1)
  }

  /** `to_shared`: shared storage is cloned (one more holder, no copy of the
      elements); any other storage is copied with `to_owned` into a new
      `Arc` with one holder. */
  function ToShared(t: TensorBase, h: OS.ArcHeap, elems: seq<Cell>, newId: nat, newBase: int): (r: (TensorBase, OS.ArcHeap))
    requires Wf(t, h) && St.HasStorage(t.storage)
    requires newId !in h && |elems| == Size(t.dims)
    ensures Wf(r.0, r.1) && r.0.storage.Shared?
    ensures r.0.dims == t.dims && r.0.strides == t.strides
    ensures t.storage.Shared? ==> r.0 == t && r.1.Keys == h.Keys && r.1[t.storage.id].rc == h[t.storage.id].rc + 1
    ensures !t.storage.Shared? ==>
      && r.0.storage.id == newId && r.1[newId].rc == 1
      && Contents(r.0.storage, r.1) == elems && Offset(r.0, r.1) == 0
      && (forall j :: j in h ==> j in r.1 && r.1[j] == h[j])
  {
    if t.storage.Shared? then Clone(t, h, newBase)
    else IntoShared(ToOwned(t, h, elems, newBase), h, newId)
  }

  /** `clone_from` as written: the storage goes through the as-written
      `clone_from_with_ptr` with `self.ptr`, not `other.ptr`. For owned
      storage the pointer then lands at `self.ptr`'s distance from
      `other`'s base, a reused allocation receives only `self.size` of
      `other`'s slots, and the call reads past `other` (`None`) when
      `self.size > other.capacity`. For shared storage and views the
      pointer stays `self.ptr`. Dims and strides come from `other`. */
  function CloneFromAsWritten(t: TensorBase, other: TensorBase, h: OS.ArcHeap, newBase: int): (r: Option<(TensorBase, OS.ArcHeap)>)
    requires Wf(t, h) && Wf(other, h) && St.SameKind(t.storage, other.storage)
    ensures r.None? <==>
      other.storage.Owned? && t.storage.owned.capacity >= other.storage.owned.capacity
      && t.storage.owned.size > other.storage.owned.capacity
    ensures r.Some? ==> St.StorageValid(r.value.0.storage, r.value.1) && St.SameKind(other.storage, r.value.0.storage)
    ensures r.Some? ==> r.value.0.dims == other.dims && r.value.0.strides == other.strides
    ensures r.Some? && other.storage.Owned? ==>
      var s, o, c := t.storage.owned, other.storage.owned, r.value.0.storage.owned;
      && Offset(r.value.0, r.value.1) == t.ptr - o.base
      && c.size == o.size && r.value.1 == h
      && (s.capacity >= o.capacity ==>
            && c.capacity == s.capacity
            && c.data[..s.size] == o.data[..s.size]
            && c.data[s.size..] == s.data[s.size..])
      && (s.capacity < o.capacity ==> OS.AsSlice(c) == OS.AsSlice(o))
    ensures r.Some? && !other.storage.Owned? ==> r.value.0.storage == other.storage && r.value.0.ptr == t.ptr
  {
    match St.CloneFromWithPtrAsWritten(t.storage, other.storage, t.ptr, h, newBase)
    case None => None
    case Some((st, p, h1)) => Some((TensorBase(st, p, other.dims, other.strides), h1))
  }

  /** As written, `clone_from` between two owned tensors of equal capacity
      whose pointers sit at different offsets leaves the pointer outside the
      storage, where `other.clone()` keeps it at `other`'s offset. */
  lemma CloneFromAsWrittenMovesPointer()
    ensures var cells := [Init(1), Init(2), Init(3), Init(4)];
            var t := TensorBase(St.Owned(OS.OwnedStorage(0, cells, 4, 4, Backend(0))), 0, Fixed([2]), Fixed([1]));
            var other := TensorBase(St.Owned(OS.OwnedStorage(100, cells, 4, 4, Backend(0))), 102, Fixed([2]), Fixed([1]));
            var h: OS.ArcHeap := map[];
            && Wf(t, h) && Wf(other, h)
            && CloneFromAsWritten(t, other, h, 200).Some?
            && var (r, h1) := CloneFromAsWritten(t, other, h, 200).value;
               var (c, h2) := Clone(other, h, 200);
               && Offset(r, h1) == -100 && !Wf(r, h1)
               && Offset(c, h2) == 2 && Wf(c, h2)
  {
  }

  /** As written, an owned tensor with one slot in use (of two) cloned from
      a tensor holding `[1, 2]` ends holding `[1, 9]`, keeping its own stale
      second slot, where `other.clone()` holds `[1, 2]`. */
  lemma CloneFromAsWrittenLeavesStaleTail()
    ensures var t := TensorBase(St.Owned(OS.OwnedStorage(0, [Init(9), Init(9)], 1, 2, Backend(0))), 0, Fixed([1]), Fixed([1]));
            var other := TensorBase(St.Owned(OS.OwnedStorage(100, [Init(1), Init(2)], 2, 2, Backend(0))), 100, Fixed([2]), Fixed([1]));
            var h: OS.ArcHeap := map[];
            && Wf(t, h) && Wf(other, h)
            && CloneFromAsWritten(t, other, h, 200).Some?
            && var (r, h1) := CloneFromAsWritten(t, other, h, 200).value;
               var (c, h2) := Clone(other, h, 200);
               && Contents(r.storage, h1) == [Init(1), Init(9)]
               && Contents(c.storage, h2) == [Init(1), Init(2)]
  {
    var s := OS.OwnedStorage(0, [Init(9), Init(9)], 1, 2, Backend(0));
    var other := OS.OwnedStorage(100, [Init(1), Init(2)], 2, 2, Backend(0));
    OS.CloneFromAsWrittenLeavesStaleTail();
    assert OS.CloneFromAsWritten(s, other, 200).value.data == [Init(1)] + [Init(9)];
  }

  /** As written, an owned tensor with more slots in use than `other` has
      allocated makes `clone_from` read past `other`'s allocation. */
  lemma CloneFromAsWrittenOverReads()
    ensures var t := TensorBase(St.Owned(OS.OwnedStorage(0, [Init(9), Init(9), Init(9)], 3, 3, Backend(0))), 0, Fixed([3]), Fixed([1]));
            var other := TensorBase(St.Owned(OS.OwnedStorage(100, [Init(1), Init(2)], 2, 2, Backend(0))), 100, Fixed([2]), Fixed([1]));
            var h: OS.ArcHeap := map[];
            && Wf(t, h) && Wf(other, h)
            && CloneFromAsWritten(t, other, h, 200).None?
  {
  }

  /** `clone_from` passing `other.ptr`, the evident intent: the result is
      well formed, with `other`'s dims, strides, elements and pointer
      offset. */
  function CloneFrom(t: TensorBase, other: TensorBase, h: OS.ArcHeap, newBase: int): (r: (TensorBase, OS.ArcHeap))
    requires Wf(t, h) && Wf(other, h) && St.SameKind(t.storage, other.storage)
    ensures Wf(r.0, r.1) && St.SameKind(other.storage, r.0.storage)
    ensures r.0.dims == other.dims && r.0.strides == other.strides
    ensures other.storage.Owned? ==>
      && Contents(r.0.storage, r.1) == Contents(other.storage, h)
      && Offset(r.0, r.1) == Offset(other, h)
    ensures !other.storage.Owned? ==> r.0 == other
  {
    var (st, p, h1) := St.CloneFromWithPtr(t.storage, other.storage, other.ptr, h, newBase);
    (TensorBase(st, p, other.dims, other.strides), h1)
  }

  /** `clone_from` is `*self = other.clone()`: the same dims, strides,
      elements and pointer offset as the clone (for owned storage the
      allocation may be the reused one), and exactly the clone, with the
      old `self` dropped, for shared storage and views. */
  lemma CloneFromIsAssignClone(t: TensorBase, other: TensorBase, h: OS.ArcHeap, newBase: int)
    requires Wf(t, h) && Wf(other, h) && St.SameKind(t.storage, other.storage)
    ensures var (r, h1) := CloneFrom(t, other, h, newBase);
            var (c, h2) := Clone(other, h, newBase);
            && r.dims == c.dims && r.strides == c.strides
            && (other.storage.Owned? ==>
                  Contents(r.storage, h1) == Contents(c.storage, h2) && Offset(r, h1) == Offset(c, h2))
            && (!other.storage.Owned? ==>
                  St.StorageValid(t.storage, h2) && r == c && h1 == St.Drop(t.storage, h2))
  {
  }
}
