/** Borrowed storage: raw and borrowed views, immutable and mutable. A view
    owns no memory; it records only the allocator of the memory it
    borrows. */
module ViewStorage {
  import opened Common
  import opened MemOps

  /** `RawViewStorage<*const T>`, `RawViewStorage<*mut T>`,
      `ViewStorage<&T>` and `ViewStorage<&mut T>`. */
  datatype ViewKind = RawConst | RawMut | Borrowed | BorrowedMut

  datatype ViewStorage = ViewStorage(kind: ViewKind, allocator: Backend)

  /** The view kinds that implement `RawStorageMut`. */
  predicate HasRawMut(v: ViewStorage) {
    v.kind == RawMut || v.kind == BorrowedMut
  }

  /** The view kinds that implement `Storage`. */
  predicate HasStorage(v: ViewStorage) {
    v.kind == Borrowed || v.kind == BorrowedMut
  }

  /** `_is_pointer_inbounds`: a view cannot check, and accepts every
      pointer. */
  function IsPointerInbounds(v: ViewStorage, p: int): (b: bool)
    ensures b
  {
    true
  }

  /** `clone_with_ptr`: a shallow copy; the pointer and allocator are handed
      back unchanged and nothing is copied. */
  function CloneWithPtr(v: ViewStorage, p: int): (r: (ViewStorage, int))
    ensures r.0 == v && r.1 == p
  {
    (ViewStorage(v.kind, v.allocator), p)
  }

  /** `try_is_unique`: a raw mutable view cannot tell (`None`); a borrowed
      mutable view is unique by the borrow rules (`Some(true)`). */
  function TryIsUnique(v: ViewStorage): (r: Option<bool>)
    requires HasRawMut(v)
    ensures v.kind == RawMut ==> r == None
    ensures v.kind == BorrowedMut ==> r == Some(true)
  {
    if v.kind == RawMut then None else Some(true)
  }
}
