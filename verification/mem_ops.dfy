/** The host-CPU backend's raw memory operations (`copy`, `fill`).

    A region of memory is a sequence of slots and a pointer is an index into
    it. Both routines are unchecked in the library: the model turns the
    caller's obligations (ranges in bounds, non-overlapping copy) into
    preconditions. */
module MemOps {

  /** The backend a storage was allocated with. Backends are value-like
      tokens: copied freely and compared only for identity. */
  datatype Backend = Backend(tag: nat)

  /** One element slot of an allocation: never written, or holding a value. */
  datatype Cell = Uninit | Init(value: int)

  /** Reference meaning of `fill(p, v, n)`: slots [p, p+n) hold v and every
      other slot keeps its value. */
  function Filled<T>(mem: seq<T>, p: nat, v: T, n: nat): (r: seq<T>)
    requires p + n <= |mem|
    ensures |r| == |mem|
    ensures forall i :: p <= i < p + n ==> r[i] == v
    ensures forall i :: 0 <= i < |mem| && !(p <= i < p + n) ==> r[i] == mem[i]
  {
    mem[..p] + seq(n, _ => v) + mem[p + n..]
  }

  /** Two ranges of n slots starting at a and b do not overlap. */
  predicate Disjoint(a: nat, b: nat, n: nat) {
    a + n <= b || b + n <= a
  }

  /** Reference meaning of `copy(src, dst, n)`: slots [dst, dst+n) receive the
      values of [src, src+n) and every other slot keeps its value. */
  function Copied<T>(mem: seq<T>, src: nat, dst: nat, n: nat): (r: seq<T>)
    requires src + n <= |mem| && dst + n <= |mem|
    requires Disjoint(src, dst, n)
    ensures |r| == |mem|
    ensures forall i :: dst <= i < dst + n ==> r[i] == mem[src + (i - dst)]
    ensures forall i :: 0 <= i < |mem| && !(dst <= i < dst + n) ==> r[i] == mem[i]
  {
    mem[..dst] + mem[src..src + n] + mem[dst + n..]
  }

  /** `CpuBackend::fill`: writes `v` to the `n` slots starting at `p`, one
      slot at a time. */
  method Fill<T>(mem: seq<T>, p: nat, v: T, n: nat) returns (r: seq<T>)
    requires p + n <= |mem|
    ensures r == Filled(mem, p, v, n)
  {
    r := mem;
    var i := 0;
    while i < n
      invariant 0 <= i <= n
      invariant |r| == |mem|
      invariant forall k :: p <= k < p + i ==> r[k] == v
      invariant forall k :: 0 <= k < |mem| && !(p <= k < p + i) ==> r[k] == mem[k]
    {
      r := r[p + i := v];
      i := i + 1;
    }
  }

  /** `CpuBackend::copy`, a non-overlapping copy of `n` slots from `src` to
      `dst`, one slot at a time. */
  method Copy<T>(mem: seq<T>, src: nat, dst: nat, n: nat) returns (r: seq<T>)
    requires src + n <= |mem| && dst + n <= |mem|
    requires Disjoint(src, dst, n)
    ensures r == Copied(mem, src, dst, n)
  {
    r := mem;
    var i := 0;
    while i < n
      invariant 0 <= i <= n
      invariant |r| == |mem|
      invariant forall k :: dst <= k < dst + i ==> r[k] == mem[src + (k - dst)]
      invariant forall k :: 0 <= k < |mem| && !(dst <= k < dst + i) ==> r[k] == mem[k]
    {
      r := r[dst + i := r[src + i]];
      i := i + 1;
    }
  }

  /** A fill of zero slots changes nothing. */
  lemma FillNothing<T>(mem: seq<T>, p: nat, v: T)
    requires p <= |mem|
    ensures Filled(mem, p, v, 0) == mem
  {
    assert Filled(mem, p, v, 0) == mem[..p] + mem[p..];
    assert mem[..p] + mem[p..] == mem;
  }
}
