/** The Tensor4D class template with T = int: a rank-4 tensor that owns a
    row-major buffer, its validating construction and its in-place add with
    one-directional broadcasting. */
module Tensor {
  import opened Broadcast

  datatype Error = InvalidShape | NullSource | IncompatibleShape

  /** Outcome of an operation that throws std::invalid_argument on failure. */
  datatype Result<T> = Success(value: T) | Failure(error: Error)

  /** A source pointer that may be null. */
  datatype Option<T> = None | Some(value: T)

  /** Product of the first k extents, as the constructor accumulates it. */
  function PrefixProduct(s: Shape, k: nat): nat
    requires k <= 4
  {
    if k == 0 then 1 else PrefixProduct(s, k - 1) * s[k - 1]
  }

  /** The extent check of the constructor: fails on the first zero extent,
      and otherwise yields the number of elements. */
  method CheckExtents(s: Shape) returns (r: Result<nat>)
    ensures r == if Positive(s) then Success(Size(s)) else Failure(InvalidShape)
  {
    var size := 1;
    var i := 0;
    while i < 4
      invariant 0 <= i <= 4
      invariant forall d :: 0 <= d < i ==> s[d] >= 1
      invariant size == PrefixProduct(s, i)
    {
      if s[i] == 0 {
        return Failure(InvalidShape);
      }
      size := size * s[i];
      i := i + 1;
    }
    assert PrefixProduct(s, 2) == s[0] * s[1];
    assert PrefixProduct(s, 4) == Size(s);
    return Success(size);
  }

  /** The compatibility check of operator+=: every axis of otherShape has
      extent 1 or the extent of thisShape. */
  method CheckBroadcast(thisShape: Shape, otherShape: Shape) returns (ok: bool)
    ensures ok == Broadcastable(thisShape, otherShape)
  {
    var i := 0;
    while i < 4
      invariant 0 <= i <= 4
      invariant forall d :: 0 <= d < i ==> otherShape[d] == 1 || otherShape[d] == thisShape[d]
    {
      if otherShape[i] != 1 && thisShape[i] != otherShape[i] {
        return false;
      }
      i := i + 1;
    }
    return true;
  }

  /** The inner loop of operator+=: walks the axes from 3 down to 0, peeling
      one coordinate of idx off per axis and adding it, scaled by the running
      stride of otherShape, unless otherShape has extent 1 on that axis. */
  method ComputeBroadcastIndex(thisShape: Shape, otherShape: Shape, idx: nat) returns (b: nat)
    requires Positive(thisShape)
    ensures b == BroadcastOffset(thisShape, otherShape, idx)
  {
    ghost var p := Project(otherShape, Coords(thisShape, idx));
    var linear: int := idx;
    var broadcastIdx: int := 0;
    var stride: int := 1;
    var dim := 3;
    while dim >= 0
      invariant -1 <= dim <= 3
      invariant linear == idx / Stride(thisShape, dim + 1)
      invariant stride == Stride(otherShape, dim + 1)
      invariant broadcastIdx == Offset(otherShape, p, dim + 1)
    {
      IndexStep(thisShape, otherShape, idx, dim, linear, stride, broadcastIdx);
      var coord := linear % thisShape[dim];
      linear := linear / thisShape[dim];
      if otherShape[dim] != 1 {
        broadcastIdx := broadcastIdx + coord * stride;
      }
      stride := stride * otherShape[dim];
      dim := dim - 1;
    }
    b := broadcastIdx;
  }

  class Tensor4D {
    var shape: Shape
    var data: array<int>

    /** Object invariant: positive extents and a buffer of exactly Size(shape)
        elements. */
    ghost predicate Valid()
      reads this
    {
      Positive(shape) && data.Length == Size(shape)
    }

    /** Allocation and copy of the source elements into a fresh buffer, once
        the checks have passed. */
    constructor (shape_: Shape, size: nat, src: seq<int>)
      requires Positive(shape_) && size == Size(shape_) && |src| >= size
      ensures Valid() && fresh(data)
      ensures shape == shape_ && data[..] == src[..size]
    {
      shape := shape_;
      var buffer := new int[size];
      forall i | 0 <= i < size {
        buffer[i] := src[i];
      }
      data := buffer;
    }

    /** Validating construction: InvalidShape when an extent is 0 (checked
        first), NullSource when there is no source, otherwise a new tensor
        whose buffer is a copy of the first Size(shape_) source elements. */
    static method Create(shape_: Shape, src: Option<seq<int>>) returns (r: Result<Tensor4D>)
      requires src.Some? ==> |src.value| >= Size(shape_)
      ensures r.Failure? <==> !Positive(shape_) || src.None?
      ensures !Positive(shape_) ==> r == Failure(InvalidShape)
      ensures Positive(shape_) && src.None? ==> r == Failure(NullSource)
      ensures r.Success? ==> fresh(r.value) && fresh(r.value.data) && r.value.Valid()
      ensures r.Success? ==> r.value.shape == shape_ && r.value.data[..] == src.value[..Size(shape_)]
    {
      var checked := CheckExtents(shape_);
      if checked.Failure? {
        return Failure(checked.error);
      }
      if src.None? {
        return Failure(NullSource);
      }
      var t := new Tensor4D(shape_, checked.value, src.value);
      return Success(t);
    }

    /** operator+=: fails with IncompatibleShape, changing nothing, when the
        shapes cannot be broadcast; otherwise adds to every element the
        element of others selected by BroadcastOffset and returns this. */
    method AddAssign(others: Tensor4D) returns (r: Result<Tensor4D>)
      requires Valid() && others.Valid() && others.data != data
      modifies data
      ensures Valid() && others.Valid() && shape == old(shape) && data == old(data)
      ensures others.shape == old(others.shape) && others.data[..] == old(others.data[..])
      ensures r.Success? <==> Broadcastable(shape, others.shape)
      ensures r.Failure? ==> r.error == IncompatibleShape && data[..] == old(data[..])
      ensures r.Success? ==> r.value == this
      ensures r.Success? ==> forall i :: 0 <= i < data.Length ==>
        data[i] == old(data[i]) + others.data[BroadcastOffset(shape, others.shape, i)]
    {
      var ok := CheckBroadcast(shape, others.shape);
      if !ok {
        return Failure(IncompatibleShape);
      }
      var size := shape[0] * shape[1] * shape[2] * shape[3];
      var idx := 0;
      while idx < size
        invariant 0 <= idx <= size == data.Length
        invariant forall i :: 0 <= i < idx ==>
          data[i] == old(data[i]) + others.data[BroadcastOffset(shape, others.shape, i)]
        invariant forall i :: idx <= i < size ==> data[i] == old(data[i])
      {
        var b := ComputeBroadcastIndex(shape, others.shape, idx);
        data[idx] := data[idx] + others.data[b];
        idx := idx + 1;
      }
      return Success(this);
    }
  }
}
