/** Exclusively owned storage (`OwnedStorage`) and the reference-counted
    wrapper around it (`OwnedArcStorage`).

    Addresses are plain integers: an allocation starts at `base` and a
    pointer into it is `base + offset`. Where the library allocates, the
    address the backend returns is a parameter (`newBase`), and a fresh
    reference-counted cell is named by a parameter `newId` that is not yet
    in use. */
module OwnedStorage {
  import opened Common
  import opened MemOps

  /** `OwnedStorage`: `capacity` slots at address `base`, of which the first
      `size` are in use, and the backend that allocated them. */
  datatype OwnedStorage = OwnedStorage(base: int, data: seq<Cell>, size: nat, capacity: nat, backend: Backend)

  predicate Valid(s: OwnedStorage) {
    |s.data| == s.capacity && s.size <= s.capacity
  }

  /** `as_slice`: the slots in use. */
  function AsSlice(s: OwnedStorage): seq<Cell>
    requires Valid(s)
  {
    s.data[..s.size]
  }

  /** `StorageOwned::empty`: a fresh allocation of `size` slots, none of them
      written yet, and the pointer to its first slot. */
  function Empty(size: nat, backend: Backend, newBase: int): (r: (OwnedStorage, int))
    ensures Valid(r.0) && r.0.size == size && r.0.capacity == size
    ensures r.0.backend == backend && r.0.base == newBase
    ensures r.1 == r.0.base
    ensures forall i :: 0 <= i < size ==> AsSlice(r.0)[i] == Uninit
  {
    (OwnedStorage(newBase, seq(size, _ => Uninit), size, size, backend), newBase)
  }

  /** `StorageOwned::fill`: every slot in use holds `v`; the allocation and
      the slots past `size` are untouched. */
  function Fill(s: OwnedStorage, v: int): (r: OwnedStorage)
    requires Valid(s)
    ensures Valid(r) && r.base == s.base && r.size == s.size && r.capacity == s.capacity
    ensures r.backend == s.backend
    ensures forall i :: 0 <= i < r.size ==> AsSlice(r)[i] == Init(v)
    ensures r.data[r.size..] == s.data[s.size..]
  {
    s.(data := Filled(s.data, 0, Init(v), s.size))
  }

  /** `release_memory`: a no-op on an empty allocation, otherwise the
      allocation is returned to the backend and size and capacity drop to 0. */
  function ReleaseMemory(s: OwnedStorage): (r: OwnedStorage)
    requires Valid(s)
    ensures Valid(r) && r.base == s.base && r.backend == s.backend
    ensures s.capacity == 0 ==> r == s
    ensures s.capacity != 0 ==> r.size == 0 && r.capacity == 0
  {
    if s.capacity == 0 then s else s.(data := [], size := 0, capacity := 0)
  }

  /** Releasing twice is releasing once. */
  lemma ReleaseMemoryIdempotent(s: OwnedStorage)
    requires Valid(s)
    ensures ReleaseMemory(ReleaseMemory(s)) == ReleaseMemory(s)
  {
  }

  /** `Clone::clone`: a fresh allocation holding a copy of the slots in use;
      its capacity is the original's size, not its capacity. */
  function Clone(s: OwnedStorage, newBase: int): (r: OwnedStorage)
    requires Valid(s)
    ensures Valid(r) && AsSlice(r) == AsSlice(s)
    ensures r.size == s.size && r.capacity == s.size
    ensures r.backend == s.backend && r.base == newBase
  {
    OwnedStorage(newBase, s.data[..s.size], s.size, s.size, s.backend)
  }

  /** `Clone::clone_from` as written. The allocation is reused when
      `self.capacity >= other.capacity`, but the copy then moves
      `self.size` slots, not `other.size`: when `self` was the smaller, the
      tail of the result keeps `self`'s old slots, and when `self.size`
      exceeds `other.capacity` the copy reads past the end of `other`'s
      allocation (`None`). Otherwise `self` is released and reallocated with
      `other.size` slots. */
  function CloneFromAsWritten(s: OwnedStorage, other: OwnedStorage, newBase: int): (r: Option<OwnedStorage>)
    requires Valid(s) && Valid(other)
    ensures r.None? <==> s.capacity >= other.capacity && s.size > other.capacity
    ensures r.Some? ==> Valid(r.value) && r.value.size == other.size && r.value.backend == other.backend
    ensures r.Some? && s.capacity >= other.capacity ==>
      && r.value.base == s.base && r.value.capacity == s.capacity
      && r.value.data[..s.size] == other.data[..s.size]
      && r.value.data[s.size..] == s.data[s.size..]
    ensures r.Some? && s.capacity < other.capacity ==>
      r.value.base == newBase && r.value.capacity == other.size && AsSlice(r.value) == AsSlice(other)
  {
    if s.capacity >= other.capacity then
      if s.size > other.capacity then None
      else Some(s.(data := other.data[..s.size] + s.data[s.size..], size := other.size, backend := other.backend))
    else
      // the old allocation is given back (`release_memory`) and a fresh
      // one of `other.size` slots is taken at `newBase`
      Some(OwnedStorage(newBase, other.data[..other.size], other.size, other.size, other.backend))
  }

  /** As written, `clone_from` agrees with `clone` on the slots in use when it
      reallocates, or when `self` has at least as many slots in use as
      `other` (and no more than `other` has allocated). */
  lemma CloneFromAsWrittenCorrectWhenLarger(s: OwnedStorage, other: OwnedStorage, newBase: int)
    requires Valid(s) && Valid(other)
    requires s.capacity < other.capacity || other.size <= s.size <= other.capacity
    ensures CloneFromAsWritten(s, other, newBase).Some?
    ensures AsSlice(CloneFromAsWritten(s, other, newBase).value) == AsSlice(other)
  {
    var r := CloneFromAsWritten(s, other, newBase).value;
    if s.capacity >= other.capacity {
      assert AsSlice(r) == r.data[..s.size][..other.size];
    }
  }

  /** As written, cloning a two-slot storage into one with one slot in use
      (and room for two) copies one slot and leaves the second stale. */
  lemma CloneFromAsWrittenLeavesStaleTail()
    ensures var s := OwnedStorage(0, [Init(9), Init(9)], 1, 2, Backend(0));
            var other := OwnedStorage(100, [Init(1), Init(2)], 2, 2, Backend(0));
            var r := CloneFromAsWritten(s, other, 200);
            r.Some? && AsSlice(r.value) == [Init(1), Init(9)] && AsSlice(other) == [Init(1), Init(2)]
  {
    var s := OwnedStorage(0, [Init(9), Init(9)], 1, 2, Backend(0));
    var other := OwnedStorage(100, [Init(1), Init(2)], 2, 2, Backend(0));
    var r := CloneFromAsWritten(s, other, 200).value;
    assert r.data == [Init(1)] + [Init(9)];
  }

  /** `clone_from` copying `other.size` slots, the evident intent: the
      result holds exactly `other`'s slots in use, in the reused allocation
      when `self.capacity >= other.capacity`, in a fresh one of
      `other.size` slots otherwise. */
  function CloneFrom(s: OwnedStorage, other: OwnedStorage, newBase: int): (r: OwnedStorage)
    requires Valid(s) && Valid(other)
    ensures Valid(r) && AsSlice(r) == AsSlice(other)
    ensures r.size == other.size && r.backend == other.backend
    ensures s.capacity >= other.capacity ==> r.base == s.base && r.capacity == s.capacity
    ensures s.capacity < other.capacity ==> r.base == newBase && r.capacity == other.size
  {
    if s.capacity >= other.capacity then
      s.(data := other.data[..other.size] + s.data[other.size..], size := other.size, backend := other.backend)
    else
      // the old allocation is given back (`release_memory`) and a fresh
      // one of `other.size` slots is taken at `newBase`
      OwnedStorage(newBase, other.data[..other.size], other.size, other.size, other.backend)
  }

  /** `clone_from` leaves the same slots in use as `clone` of the source. */
  lemma CloneFromMatchesClone(s: OwnedStorage, other: OwnedStorage, newBase: int)
    requires Valid(s) && Valid(other)
    ensures AsSlice(CloneFrom(s, other, newBase)) == AsSlice(Clone(other, newBase))
    ensures CloneFrom(s, other, newBase).size == Clone(other, newBase).size
  {
  }

  /** `_is_pointer_inbounds`: the pointer lies in the slots in use, the
      one-past-the-end address included. */
  predicate IsPointerInbounds(s: OwnedStorage, p: int) {
    s.base <= p <= s.base + s.size
  }

  /** `clone_with_ptr`: clones the storage and moves `p` to the same offset in
      the clone; a pointer that was in bounds stays in bounds. */
  function CloneWithPtr(s: OwnedStorage, p: int, newBase: int): (r: (OwnedStorage, int))
    requires Valid(s)
    ensures Valid(r.0) && AsSlice(r.0) == AsSlice(s) && r.0.backend == s.backend
    ensures r.0.base == newBase
    ensures r.1 - r.0.base == p - s.base
    ensures IsPointerInbounds(s, p) ==> IsPointerInbounds(r.0, r.1)
  {
    var c := Clone(s, newBase);
    (c, c.base + (p - s.base))
  }

  /** `clone_from_with_ptr` as written: the offset of `p` is measured from
      `other`'s allocation, `self` goes through the as-written `clone_from`
      (so a reused allocation copies only `self.size` slots, and the call
      reads past `other` when `self.size > other.capacity`), and the same
      offset is applied to `self`'s new base. */
  function CloneFromWithPtrAsWritten(s: OwnedStorage, other: OwnedStorage, p: int, newBase: int): (r: Option<(OwnedStorage, int)>)
    requires Valid(s) && Valid(other)
    ensures r.None? <==> s.capacity >= other.capacity && s.size > other.capacity
    ensures r.Some? ==> Valid(r.value.0) && r.value.0.size == other.size && r.value.0.backend == other.backend
    ensures r.Some? ==> r.value.1 - r.value.0.base == p - other.base
    ensures r.Some? && s.capacity >= other.capacity ==>
      && r.value.0.base == s.base && r.value.0.capacity == s.capacity
      && r.value.0.data[..s.size] == other.data[..s.size]
      && r.value.0.data[s.size..] == s.data[s.size..]
    ensures r.Some? && s.capacity < other.capacity ==> AsSlice(r.value.0) == AsSlice(other)
  {
    var offset := p - other.base;
    match CloneFromAsWritten(s, other, newBase)
    case None => None
    case Some(c) => Some((c, c.base + offset))
  }

  /** `clone_from_with_ptr` over the corrected `clone_from`: `self` becomes
      a copy of `other` (reusing its allocation when it can) and the offset
      `p` has within `other` is applied to `self`'s new base. */
  function CloneFromWithPtr(s: OwnedStorage, other: OwnedStorage, p: int, newBase: int): (r: (OwnedStorage, int))
    requires Valid(s) && Valid(other)
    ensures Valid(r.0) && AsSlice(r.0) == AsSlice(other) && r.0.backend == other.backend
    ensures r.1 - r.0.base == p - other.base
    ensures IsPointerInbounds(other, p) ==> IsPointerInbounds(r.0, r.1)
  {
    var offset := p - other.base;
    var c := CloneFrom(s, other, newBase);
    (c, c.base + offset)
  }

  /** One reference-counted allocation: the storage and its holder count. */
  datatype ArcCell = ArcCell(storage: OwnedStorage, rc: nat)

  /** Every live `Arc<OwnedStorage>`, by identity. */
  type ArcHeap = map<nat, ArcCell>

  predicate HeapValid(h: ArcHeap) {
    forall id :: id in h ==> h[id].rc >= 1 && Valid(h[id].storage)
  }

  /** `StorageOwned::into_shared`: the storage moves, uncopied, into a new
      `Arc` with one holder; nothing else changes. */
  function IntoShared(s: OwnedStorage, h: ArcHeap, newId: nat): (r: ArcHeap)
    requires Valid(s) && HeapValid(h) && newId !in h
    ensures HeapValid(r) && r.Keys == h.Keys + {newId}
    ensures r[newId] == ArcCell(s, 1)
    ensures forall id :: id in h ==> r[id] == h[id]
  {
    h[newId := ArcCell(s, 1)]
  }

  /** `Clone for OwnedArcStorage`: one more holder of the same storage. */
  function Acquire(h: ArcHeap, id: nat): (r: ArcHeap)
    requires HeapValid(h) && id in h
    ensures HeapValid(r) && r.Keys == h.Keys
    ensures r[id].storage == h[id].storage && r[id].rc == h[id].rc + 1
    ensures forall j :: j in h && j != id ==> r[j] == h[j]
  {
    h[id := h[id].(rc := h[id].rc + 1)]
  }

  /** Dropping one holder; the last holder's drop releases the storage. */
  function Release(h: ArcHeap, id: nat): (r: ArcHeap)
    requires HeapValid(h) && id in h
    ensures HeapValid(r)
    ensures h[id].rc == 1 ==> r.Keys == h.Keys - {id}
    ensures h[id].rc > 1 ==> r.Keys == h.Keys && r[id] == h[id].(rc := h[id].rc - 1)
    ensures forall j :: j in h && j != id ==> j in r && r[j] == h[j]
  {
    if h[id].rc == 1 then h - {id} else h[id := h[id].(rc := h[id].rc - 1)]
  }

  /** A clone that is dropped again leaves every count as it was. */
  lemma AcquireRelease(h: ArcHeap, id: nat)
    requires HeapValid(h) && id in h
    ensures Release(Acquire(h, id), id) == h
  {
    var r := Release(Acquire(h, id), id);
    assert r.Keys == h.Keys;
    assert forall j :: j in h ==> r[j] == h[j];
  }
}
