/** Filling vectors in place (`Vector.FillValue`). */
module VectorMapping {
  import opened Errors
  import ArrayCheck
  import VectorOp

  /** The vector of length `n` whose every entry is `v`. */
  function Constant(n: nat, v: real): (s: seq<real>)
    ensures |s| == n && forall i :: 0 <= i < n ==> s[i] == v
  {
    seq(n, _ => v)
  }

  /** `x.FillValue(val)`: every entry of `x` becomes `val`; an empty `x` raises an index error. */
  method FillValue(x: array<real>, val: real) returns (r: Outcome)
    modifies x
    ensures r == if x.Length > 0 then Pass else Fail(IndexOutOfRange)
    ensures r.Pass? ==> x[..] == Constant(x.Length, val)
  {
    if x.Length == 0 {
      return Fail(IndexOutOfRange);
    }
    var i := 0;
    while i < x.Length
      invariant 0 <= i <= x.Length
      invariant forall k :: 0 <= k < i ==> x[k] == val
    {
      x[i] := val;
      i := i + 1;
    }
    r := Pass;
  }

  /** `x.FillValue(val)` on a matrix: all `nbRows * nbCols` entries become `val`. */
  method FillValue2D(x: array2<real>, val: real) returns (r: Outcome)
    modifies x
    ensures r == if VectorOp.NonEmpty2D(x) then Pass else Fail(IndexOutOfRange)
    ensures r.Pass? ==> forall p, q :: 0 <= p < x.Length0 && 0 <= q < x.Length1 ==> x[p, q] == val
  {
    if !VectorOp.NonEmpty2D(x) {
      return Fail(IndexOutOfRange);
    }
    VectorOp.Pointwise2D(x, x, (u, v) => val);
    r := Pass;
  }

  /** `x.FillValue(val[])`: copies `val` into `x`; fails unless the lengths agree, and on
      empty arrays. `val` is left as it was. */
  method FillValueFrom(x: array<real>, val: array<real>) returns (r: Outcome)
    modifies x
    ensures r == if val.Length != x.Length then Fail(SizeMismatch)
                 else if x.Length == 0 then Fail(IndexOutOfRange)
                 else Pass
    ensures x[..] == if r.Pass? then old(val[..]) else old(x[..])
    ensures x != val ==> val[..] == old(val[..])
  {
    var n := x.Length;
    r := ArrayCheck.EqualSize(n, [x, val]);
    if r.Fail? {
      return;
    }
    assert val.Length == n by {
      assert [x, val][1] == val;
    }
    if n == 0 {
      return Fail(IndexOutOfRange);
    }
    var i := 0;
    while i < n
      invariant 0 <= i <= n
      invariant forall k :: 0 <= k < i ==> x[k] == old(val[k])
      invariant forall k :: i <= k < n ==> val[k] == old(val[k])
      invariant x != val ==> val[..] == old(val[..])
    {
      x[i] := val[i];
      i := i + 1;
    }
  }

  /** The matrix-from-matrix fill has no implementation: it always throws. */
  method FillValueFrom2D(x: array2<real>, val: array2<real>) returns (r: Outcome)
    ensures r == Fail(NotImplemented)
  {
    r := Fail(NotImplemented);
  }
}
