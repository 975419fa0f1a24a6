/** The host implementation of the element-wise kernels (`HostOps`).

    Elements are instantiated as unbounded integers; the slices are values,
    so the inputs `lhs` and `rhs` are untouched by construction and the
    written output is returned. */
module HostOps {

  /** Number of positions `zip_binary_op` visits: the iterator zip stops at
      the shortest of the three slices. */
  function ZipLen(a: nat, b: nat, c: nat): (m: nat)
    ensures m <= a && m <= b && m <= c
    ensures m == a || m == b || m == c
  {
    if a <= b && a <= c then a else if b <= c then b else c
  }

  /** `zip_binary_op`: writes `f(lhs[i], rhs[i])` into `out[i]` for every
      position the three slices share, and leaves the rest of `out` alone. */
  method ZipBinaryOp(lhs: seq<int>, rhs: seq<int>, out: seq<int>, f: (int, int) -> int)
    returns (r: seq<int>)
    ensures |r| == |out|
    ensures forall i :: 0 <= i < ZipLen(|lhs|, |rhs|, |out|) ==> r[i] == f(lhs[i], rhs[i])
    ensures forall i :: ZipLen(|lhs|, |rhs|, |out|) <= i < |out| ==> r[i] == out[i]
  {
    var m := ZipLen(|lhs|, |rhs|, |out|);
    r := out;
    var i := 0;
    while i < m
      invariant 0 <= i <= m
      invariant |r| == |out|
      invariant forall k :: 0 <= k < i ==> r[k] == f(lhs[k], rhs[k])
      invariant forall k :: i <= k < |out| ==> r[k] == out[k]
    {
      r := r[i := f(lhs[i], rhs[i])];
      i := i + 1;
    }
  }

  /** `HostOps::_fill`: every element of `out` becomes `value`. */
  method FillSlice(value: int, out: seq<int>) returns (r: seq<int>)
    ensures |r| == |out|
    ensures forall i :: 0 <= i < |r| ==> r[i] == value
  {
    r := out;
    var i := 0;
    while i < |out|
      invariant 0 <= i <= |out|
      invariant |r| == |out|
      invariant forall k :: 0 <= k < i ==> r[k] == value
    {
      r := r[i := value];
      i := i + 1;
    }
  }

  /** `HostOps::_add`. */
  method Add(lhs: seq<int>, rhs: seq<int>, out: seq<int>) returns (r: seq<int>)
    ensures |r| == |out|
    ensures forall i :: 0 <= i < ZipLen(|lhs|, |rhs|, |out|) ==> r[i] == lhs[i] + rhs[i]
    ensures forall i :: ZipLen(|lhs|, |rhs|, |out|) <= i < |out| ==> r[i] == out[i]
  {
    r := ZipBinaryOp(lhs, rhs, out, (x, y) => x + y);
  }

  /** `HostOps::_sub`. */
  method Sub(lhs: seq<int>, rhs: seq<int>, out: seq<int>) returns (r: seq<int>)
    ensures |r| == |out|
    ensures forall i :: 0 <= i < ZipLen(|lhs|, |rhs|, |out|) ==> r[i] == lhs[i] - rhs[i]
    ensures forall i :: ZipLen(|lhs|, |rhs|, |out|) <= i < |out| ==> r[i] == out[i]
  {
    r := ZipBinaryOp(lhs, rhs, out, (x, y) => x - y);
  }

  /** `HostOps::_mul`. */
  method Mul(lhs: seq<int>, rhs: seq<int>, out: seq<int>) returns (r: seq<int>)
    ensures |r| == |out|
    ensures forall i :: 0 <= i < ZipLen(|lhs|, |rhs|, |out|) ==> r[i] == lhs[i] * rhs[i]
    ensures forall i :: ZipLen(|lhs|, |rhs|, |out|) <= i < |out| ==> r[i] == out[i]
  {
    r := ZipBinaryOp(lhs, rhs, out, (x, y) => x * y);
  }

  function Abs(x: int): nat {
    if x < 0 then -x else x
  }

  /** Integer division as Rust performs it: the quotient is truncated toward
      zero (Dafny's own `/` is Euclidean). */
  function TruncDiv(a: int, b: int): int
    requires b != 0
  {
    var m := Abs(a) / Abs(b);
    if (a < 0) != (b < 0) then -m else m
  }

  /** `HostOps::_div`. Integer division by zero panics, so every divisor the
      zip visits must be non-zero. */
  method Div(lhs: seq<int>, rhs: seq<int>, out: seq<int>) returns (r: seq<int>)
    requires forall i :: 0 <= i < ZipLen(|lhs|, |rhs|, |out|) ==> rhs[i] != 0
    ensures |r| == |out|
    ensures forall i :: 0 <= i < ZipLen(|lhs|, |rhs|, |out|) ==> r[i] == TruncDiv(lhs[i], rhs[i])
    ensures forall i :: ZipLen(|lhs|, |rhs|, |out|) <= i < |out| ==> r[i] == out[i]
  {
    r := ZipBinaryOp(lhs, rhs, out, (x, y) => if y == 0 then 0 else TruncDiv(x, y));
  }

  /** Rust's `-7 / 2` is `-3`, where a Euclidean quotient would be `-4`. */
  lemma TruncDivRoundsTowardZero()
    ensures TruncDiv(-7, 2) == -3 && TruncDiv(7, -2) == -3 && TruncDiv(-7, -2) == 3
  {
  }
}
