/** The dynamically ranked dimension value (`DynDimsImpl`) and its
    small-buffer representation: up to `CAP` extents inline, more on the
    heap. */
module DynDims {
  import opened Common

  /** Inline capacity of a dynamic dimension. */
  const CAP: nat := 4

  /** `DynDimsRepr`: a count with a fixed array of `CAP` cells, or a
      heap-allocated slice. */
  datatype DynDimsRepr = Inline(len: nat, cells: seq<nat>) | Alloc(buf: seq<nat>)

  /** The inline array always has `CAP` cells and the count never exceeds it
      (what `deref` debug-asserts). */
  predicate Valid(r: DynDimsRepr) {
    r.Inline? ==> |r.cells| == CAP && r.len <= CAP
  }

  /** `Deref`: the logical extents, `cells[..len]` or the heap slice. */
  function Contents(r: DynDimsRepr): seq<nat>
    requires Valid(r)
  {
    match r
    case Inline(len, cells) => cells[..len]
    case Alloc(buf) => buf
  }

  /** `ndim` of a dynamic dimension: the length of its logical slice. */
  function Ndim(r: DynDimsRepr): nat
    requires Valid(r)
  {
    |Contents(r)|
  }

  function Zeros(n: nat): (z: seq<nat>)
    ensures |z| == n && forall i :: 0 <= i < n ==> z[i] == 0
  {
    seq(n, _ => 0)
  }

  /** `PartialEq`: two inline values compare their counts and their first
      `len` cells; every other pair compares the logical slices. */
  predicate Eq(a: DynDimsRepr, b: DynDimsRepr)
    requires Valid(a) && Valid(b)
    ensures Eq(a, b) <==> Contents(a) == Contents(b)
  {
    match (a, b)
    case (Inline(len1, x1), Inline(len2, x2)) =>
      len1 == len2 && forall i :: 0 <= i < CAP && i < len1 ==> x1[i] == x2[i]
    case _ => Contents(a) == Contents(b)
  }

  /** Equality is by logical contents, whatever the two representations. */
  lemma EqIsContentEquality(a: DynDimsRepr, b: DynDimsRepr)
    requires Valid(a) && Valid(b)
    ensures Eq(a, b) <==> Contents(a) == Contents(b)
  {
    if a.Inline? && b.Inline? {
      if Eq(a, b) {
        assert forall i :: 0 <= i < a.len ==> Contents(a)[i] == Contents(b)[i];
      }
      if Contents(a) == Contents(b) {
        assert forall i :: 0 <= i < a.len ==> a.cells[i] == Contents(a)[i] == Contents(b)[i] == b.cells[i];
      }
    }
  }

  /** The same extents stored inline and on the heap compare equal. */
  lemma EqAcrossRepresentations(x: seq<nat>)
    requires |x| <= CAP
    ensures Eq(Inline(|x|, x + Zeros(CAP - |x|)), Alloc(x))
  {
    assert (x + Zeros(CAP - |x|))[..|x|] == x;
  }

  /** `Default`: the empty inline value, i.e. rank 0. */
  function Default(): (r: DynDimsRepr)
    ensures Valid(r) && r.Inline? && Contents(r) == []
  {
    Inline(0, Zeros(CAP))
  }

  /** `t` is `s` with an extent 1 inserted at position `axis`. */
  predicate InsertsOne(s: seq<nat>, axis: nat, t: seq<nat>) {
    && axis <= |s|
    && |t| == |s| + 1
    && t[axis] == 1
    && (forall i :: 0 <= i < axis ==> t[i] == s[i])
    && (forall i :: axis <= i < |s| ==> t[i + 1] == s[i])
  }

  /** `t` is `s` with position `axis` removed. */
  predicate RemovesAt(s: seq<nat>, axis: nat, t: seq<nat>) {
    && axis < |s|
    && |t| == |s| - 1
    && (forall i :: 0 <= i < axis ==> t[i] == s[i])
    && (forall i :: axis < i < |s| ==> t[i - 1] == s[i])
  }

  /** `DynDimsImpl::unsqueeze` as written. It takes the inline path whenever
      `axis < CAP`, where `out[axis + 1..=len]` must fit in the 4-cell
      array; for a value of `CAP` or more extents that slice overruns the
      array and the call panics (`None`). */
  function UnsqueezeAsWritten(r: DynDimsRepr, axis: nat): (o: Option<DynDimsRepr>)
    requires Valid(r)
    requires axis < Ndim(r)
    ensures o.None? <==> axis < CAP && CAP <= Ndim(r)
    ensures o.Some? ==> Valid(o.value) && InsertsOne(Contents(r), axis, Contents(o.value))
    ensures o.Some? ==> (o.value.Inline? <==> axis < CAP)
  {
    var s := Contents(r);
    if axis < CAP then
      if CAP <= |s| then None
      else Some(Inline(|s| + 1, s[..axis] + [1] + s[axis..] + seq(CAP - 1 - |s|, _ => 1)))
    else
      Some(Alloc(s[..axis] + [1] + s[axis..]))
  }

  /** `unsqueeze` with the inline/heap choice made on the new rank, the
      evident intent: the result is inline exactly when it fits. Inserting
      at `axis == ndim` appends. */
  function Unsqueeze(r: DynDimsRepr, axis: nat): (o: DynDimsRepr)
    requires Valid(r)
    requires axis <= Ndim(r)
    ensures Valid(o) && InsertsOne(Contents(r), axis, Contents(o))
    ensures o.Inline? <==> Ndim(r) < CAP
  {
    var s := Contents(r);
    if |s| < CAP then
      Inline(|s| + 1, s[..axis] + [1] + s[axis..] + seq(CAP - 1 - |s|, _ => 1))
    else
      Alloc(s[..axis] + [1] + s[axis..])
  }

  /** `DynDimsImpl::squeeze` as written. The inline branches for 3 and 4
      extents read `x[k + 1 - axis]`: for `axis == 1` that drops the LAST
      extent instead of extent 1, and for `axis >= 2` the unsigned
      subtraction `1 - axis` underflows and the call panics (`None`). */
  function SqueezeAsWritten(r: DynDimsRepr, axis: nat): (o: Option<DynDimsRepr>)
    requires Valid(r)
    requires axis < Ndim(r)
    ensures o.None? <==> r.Inline? && 3 <= r.len && 2 <= axis
    ensures o.Some? ==> Valid(o.value) && Ndim(o.value) == Ndim(r) - 1
    ensures o.Some? ==> (o.value.Inline? <==> r.Inline?)
    ensures o.Some? && (axis == 0 || r.Alloc? || Ndim(r) <= 2) ==>
      RemovesAt(Contents(r), axis, Contents(o.value))
    ensures o.Some? && r.Inline? && 3 <= r.len && axis == 1 ==>
      Contents(o.value) == Contents(r)[..r.len - 1]
  {
    match r
    case Inline(len, x) =>
      if len <= 1 then Some(Inline(0, Zeros(CAP)))
      else if len == 2 then Some(Inline(1, [x[1 - axis], 0, 0, 0]))
      else if 1 < axis then None
      else if len == 3 then Some(Inline(2, [x[1 - axis], x[2 - axis], 0, 0]))
      else Some(Inline(3, [x[1 - axis], x[2 - axis], x[3 - axis], 0]))
    case Alloc(buf) =>
      Some(Alloc(buf[..axis] + buf[axis + 1..]))
  }

  /** `squeeze` with every inline branch removing position `axis`, the
      evident intent; the representation kind is kept, as in the source. */
  function Squeeze(r: DynDimsRepr, axis: nat): (o: DynDimsRepr)
    requires Valid(r)
    requires axis < Ndim(r)
    ensures Valid(o) && RemovesAt(Contents(r), axis, Contents(o))
    ensures o.Inline? <==> r.Inline?
  {
    var s := Contents(r);
    var t := s[..axis] + s[axis + 1..];
    match r
    case Inline(len, _) => Inline(len - 1, t + Zeros(CAP - (len - 1)))
    case Alloc(_) => Alloc(t)
  }

  /** Removing the extent just inserted gives the original extents back. */
  lemma InsertThenRemove(s: seq<nat>, axis: nat, t: seq<nat>, u: seq<nat>)
    requires InsertsOne(s, axis, t) && RemovesAt(t, axis, u)
    ensures u == s
  {
    assert |u| == |s|;
    forall i | 0 <= i < |s|
      ensures u[i] == s[i]
    {
      if i < axis {
        assert u[i] == t[i];
      } else {
        assert u[i] == t[i + 1];
      }
    }
  }

  /** `squeeze(axis)` undoes `unsqueeze(axis)` for the corrected pair. */
  lemma SqueezeUnsqueeze(r: DynDimsRepr, axis: nat)
    requires Valid(r)
    requires axis <= Ndim(r)
    ensures Contents(Squeeze(Unsqueeze(r, axis), axis)) == Contents(r)
    ensures Eq(Squeeze(Unsqueeze(r, axis), axis), r)
  {
    var u := Unsqueeze(r, axis);
    var v := Squeeze(u, axis);
    InsertThenRemove(Contents(r), axis, Contents(u), Contents(v));
    EqIsContentEquality(v, r);
  }

  /** As written, the round trip holds on the heap path and for `axis == 0`. */
  lemma SqueezeUnsqueezeAsWritten(r: DynDimsRepr, axis: nat)
    requires Valid(r)
    requires axis < Ndim(r)
    requires UnsqueezeAsWritten(r, axis).Some?
    requires axis == 0 || CAP <= axis
    ensures SqueezeAsWritten(UnsqueezeAsWritten(r, axis).value, axis).Some?
    ensures Contents(SqueezeAsWritten(UnsqueezeAsWritten(r, axis).value, axis).value) == Contents(r)
  {
    var u := UnsqueezeAsWritten(r, axis).value;
    var v := SqueezeAsWritten(u, axis).value;
    InsertThenRemove(Contents(r), axis, Contents(u), Contents(v));
  }

  /** As written, `[1, 2, 3]` unsqueezed at 1 gives `[1, 1, 2, 3]`, and
      squeezing that at 1 gives `[1, 1, 2]`: the round trip loses the 3. */
  lemma SqueezeUnsqueezeAsWrittenLosesExtent()
    ensures UnsqueezeAsWritten(Inline(3, [1, 2, 3, 0]), 1) == Some(Inline(4, [1, 1, 2, 3]))
    ensures SqueezeAsWritten(Inline(4, [1, 1, 2, 3]), 1) == Some(Inline(3, [1, 1, 2, 0]))
    ensures Contents(Inline(3, [1, 1, 2, 0])) != Contents(Inline(3, [1, 2, 3, 0]))
  {
    var s: seq<nat> := [1, 2, 3];
    assert Contents(Inline(3, [1, 2, 3, 0])) == s;
    assert s[..1] + [1] + s[1..] + seq(0, _ => 1) == [1, 1, 2, 3];
    assert Contents(Inline(3, [1, 1, 2, 0]))[2] == 2;
  }

  /** As written, squeezing `[1, 2, 3]` at axis 2 underflows, and
      unsqueezing a heap value of five extents at axis 0 overruns the inline
      array. */
  lemma AsWrittenPanics()
    ensures SqueezeAsWritten(Inline(3, [1, 2, 3, 0]), 2).None?
    ensures UnsqueezeAsWritten(Alloc([1, 2, 3, 4, 5]), 0).None?
  {
  }
}
