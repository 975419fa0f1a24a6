/** The storage traits (`RawStorage`, `RawStorageClone`, `RawStorageMut`,
    `Storage`, `StorageMut`) dispatched over the three kinds of storage a
    tensor can hold: owned, shared through a reference count, or a view.
    Shared storage lives in the `ArcHeap`; an operation that changes a
    reference count returns the new heap. */
module Storage {
  import opened Common
  import opened MemOps
  import OS = OwnedStorage
  import VS = ViewStorage

  datatype Storage =
    | Owned(owned: OS.OwnedStorage)
    | Shared(id: nat)
    | View(view: VS.ViewStorage)

  predicate StorageValid(st: Storage, h: OS.ArcHeap) {
    && OS.HeapValid(h)
    && match st
       case Owned(s) => OS.Valid(s)
       case Shared(id) => id in h
       case View(_) => true
  }

  /** The storage kinds that implement `RawStorageMut`. */
  predicate HasRawMut(st: Storage) {
    !st.View? || VS.HasRawMut(st.view)
  }

  /** The storage kinds that implement `Storage`. */
  predicate HasStorage(st: Storage) {
    !st.View? || VS.HasStorage(st.view)
  }

  /** The storage kinds that implement `StorageMut`. */
  predicate HasStorageMut(st: Storage) {
    HasRawMut(st) && HasStorage(st)
  }

  /** `self` and `other` of a `clone_from` are of one Rust type. */
  predicate SameKind(a: Storage, b: Storage) {
    || (a.Owned? && b.Owned?)
    || (a.Shared? && b.Shared?)
    || (a.View? && b.View? && a.view.kind == b.view.kind)
  }

  /** The backend (allocator) token of the storage. */
  function BackendOf(st: Storage, h: OS.ArcHeap): (b: Backend)
    requires StorageValid(st, h)
    ensures st.Owned? ==> b == st.owned.backend
    ensures st.Shared? ==> b == h[st.id].storage.backend
    ensures st.View? ==> b == st.view.allocator
  {
    match st
    case Owned(s) => s.backend
    case Shared(id) => h[id].storage.backend
    case View(v) => v.allocator
  }

  /** `_is_pointer_inbounds`: owned storage checks against its slots in use,
      shared storage against the storage it shares, a view accepts any
      pointer. */
  function IsPointerInbounds(st: Storage, h: OS.ArcHeap, p: int): (b: bool)
    requires StorageValid(st, h)
    ensures st.Owned? ==> (b <==> st.owned.base <= p <= st.owned.base + st.owned.size)
    ensures st.Shared? ==> (b <==> h[st.id].storage.base <= p <= h[st.id].storage.base + h[st.id].storage.size)
    ensures st.View? ==> b
  {
    match st
    case Owned(s) => OS.IsPointerInbounds(s, p)
    case Shared(id) => OS.IsPointerInbounds(h[id].storage, p)
    case View(v) => VS.IsPointerInbounds(v, p)
  }

  /** Dropping a storage value: only shared storage has an effect, on its
      reference count. */
  function Drop(st: Storage, h: OS.ArcHeap): (r: OS.ArcHeap)
    requires StorageValid(st, h)
    ensures OS.HeapValid(r)
    ensures !st.Shared? ==> r == h
    ensures st.Shared? && h[st.id].rc > 1 ==> st.id in r && r[st.id].rc == h[st.id].rc - 1
    ensures st.Shared? && h[st.id].rc == 1 ==> st.id !in r
    ensures forall j :: j in h && (!st.Shared? || j != st.id) ==> j in r && r[j] == h[j]
  {
    if st.Shared? then OS.Release(h, st.id) else h
  }

  /** `clone_with_ptr`. Owned storage is deep-copied and the pointer keeps
      its offset; shared storage gains a holder and keeps the pointer; a view
      is copied shallowly and keeps the pointer. The backend is kept, and a
      pointer in bounds stays in bounds. */
  function CloneWithPtr(st: Storage, p: int, h: OS.ArcHeap, newBase: int): (r: (Storage, int, OS.ArcHeap))
    requires StorageValid(st, h)
    ensures StorageValid(r.0, r.2) && SameKind(st, r.0)
    ensures BackendOf(r.0, r.2) == BackendOf(st, h)
    ensures IsPointerInbounds(st, h, p) ==> IsPointerInbounds(r.0, r.2, r.1)
    ensures st.Owned? ==>
      && OS.AsSlice(r.0.owned) == OS.AsSlice(st.owned)
      && r.1 - r.0.owned.base == p - st.owned.base
      && r.2 == h
    ensures st.Shared? ==>
      && r.0 == st && r.1 == p
      && r.2.Keys == h.Keys && r.2[st.id].rc == h[st.id].rc + 1 && r.2[st.id].storage == h[st.id].storage
      && (forall j :: j in h && j != st.id ==> r.2[j] == h[j])
    ensures st.View? ==> r.0 == st && r.1 == p && r.2 == h
  {
    match st
    case Owned(s) =>
      var (c, q) := OS.CloneWithPtr(s, p, newBase);
      (Owned(c), q, h)
    case Shared(id) =>
      (Shared(id), p, OS.Acquire(h, id))
    case View(v) =>
      var (c, q) := VS.CloneWithPtr(v, p);
      (View(c), q, h)
  }

  /** `clone_from_with_ptr` as written. Owned storage uses its own override
      over the as-written `clone_from` (`None` where that reads past
      `other`); the other kinds use the trait's default: clone `other` with
      `p`, drop the old `self`, and return the clone's pointer. */
  function CloneFromWithPtrAsWritten(st: Storage, other: Storage, p: int, h: OS.ArcHeap, newBase: int): (r: Option<(Storage, int, OS.ArcHeap)>)
    requires StorageValid(st, h) && StorageValid(other, h) && SameKind(st, other)
    ensures r.None? <==> other.Owned? && st.owned.capacity >= other.owned.capacity && st.owned.size > other.owned.capacity
    ensures r.Some? ==> StorageValid(r.value.0, r.value.2) && SameKind(other, r.value.0)
    ensures r.Some? && other.Owned? ==>
      var c := r.value.0.owned;
      && c.size == other.owned.size && r.value.2 == h
      && r.value.1 - c.base == p - other.owned.base
      && (st.owned.capacity >= other.owned.capacity ==>
            && c.base == st.owned.base && c.capacity == st.owned.capacity
            && c.data[..st.owned.size] == other.owned.data[..st.owned.size]
            && c.data[st.owned.size..] == st.owned.data[st.owned.size..])
      && (st.owned.capacity < other.owned.capacity ==> OS.AsSlice(c) == OS.AsSlice(other.owned))
    ensures !other.Owned? ==> r == Some(CloneFromWithPtr(st, other, p, h, newBase))
    ensures r.Some? && !other.Owned? ==> r.value.0 == other && r.value.1 == p
  {
    if st.Owned? then
      match OS.CloneFromWithPtrAsWritten(st.owned, other.owned, p, newBase)
      case None => None
      case Some((c, q)) => Some((Owned(c), q, h))
    else
      Some(CloneFromWithPtr(st, other, p, h, newBase))
  }

  /** `clone_from_with_ptr` over the corrected `clone_from`. Owned storage
      reapplies the offset of `p` within `other` to the reused or fresh
      allocation, which then holds exactly `other`'s slots in use; the
      other kinds use the trait's default as above. */
  function CloneFromWithPtr(st: Storage, other: Storage, p: int, h: OS.ArcHeap, newBase: int): (r: (Storage, int, OS.ArcHeap))
    requires StorageValid(st, h) && StorageValid(other, h) && SameKind(st, other)
    ensures StorageValid(r.0, r.2) && SameKind(other, r.0)
    ensures BackendOf(r.0, r.2) == BackendOf(other, h)
    ensures IsPointerInbounds(other, h, p) ==> IsPointerInbounds(r.0, r.2, r.1)
    ensures other.Owned? ==>
      && OS.AsSlice(r.0.owned) == OS.AsSlice(other.owned)
      && r.1 - r.0.owned.base == p - other.owned.base
      && r.2 == h
    ensures other.Shared? ==> r.0 == other && r.1 == p
    ensures other.Shared? && st.id == other.id ==> r.2 == h
    ensures other.Shared? && st.id != other.id ==>
      && other.id in r.2 && r.2[other.id].rc == h[other.id].rc + 1
      && (h[st.id].rc == 1 ==> st.id !in r.2)
      && (h[st.id].rc > 1 ==> st.id in r.2 && r.2[st.id].rc == h[st.id].rc - 1)
    ensures other.View? ==> r.0 == other && r.1 == p && r.2 == h
  {
    if st.Owned? then
      var (c, q) := OS.CloneFromWithPtr(st.owned, other.owned, p, newBase);
      (Owned(c), q, h)
    else
      var (c, q, h1) := CloneWithPtr(other, p, h, newBase);
      var h2 := Drop(st, h1);
      (c, q, h2)
  }

  /** `try_is_unique`: owned storage is always unique; shared storage is
      unique exactly when it has one holder; views answer as
      `ViewStorage.TryIsUnique` does. */
  function TryIsUnique(st: Storage, h: OS.ArcHeap): (r: Option<bool>)
    requires StorageValid(st, h) && HasRawMut(st)
    ensures st.Owned? ==> r == Some(true)
    ensures st.Shared? ==> r == Some(h[st.id].rc == 1)
    ensures st.View? ==> (r.None? <==> st.view.kind == VS.RawMut)
    ensures st.View? && st.view.kind == VS.BorrowedMut ==> r == Some(true)
  {
    match st
    case Owned(_) => Some(true)
    case Shared(id) => Some(h[id].rc == 1)
    case View(v) => VS.TryIsUnique(v)
  }

  /** Every storage kind that implements `StorageMut` gives an answer, so the
      unwrap in `is_unique` cannot fail for them. */
  lemma StorageMutKnowsUniqueness(st: Storage, h: OS.ArcHeap)
    requires StorageValid(st, h) && HasStorageMut(st)
    ensures TryIsUnique(st, h).Some?
  {
  }

  /** `is_unique`: the answer `try_is_unique` gives, which must be known. */
  function IsUnique(st: Storage, h: OS.ArcHeap): (b: bool)
    requires StorageValid(st, h) && HasRawMut(st) && TryIsUnique(st, h).Some?
    ensures b <==> (st.Shared? ==> h[st.id].rc == 1)
  {
    TryIsUnique(st, h).value
  }
}
