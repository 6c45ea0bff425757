/** Index arithmetic of a rank-4 row-major tensor and of the one-directional
    broadcast used by Tensor4D::operator+=.

    A flat index into a tensor of shape s is split into four coordinates,
    axis 3 varying fastest (Coords); coordinates are turned back into a flat
    index by Flatten. Broadcasting reads the element of the second operand
    at the coordinates of the first, with every axis of extent 1 pinned to
    coordinate 0 (BroadcastOffset).

    Every step that needs non-linear arithmetic is a lemma over plain
    integers in module Arith; the lemmas here only instantiate them. */
module Arith {

  lemma MulMono(a: int, b: int, n: int)
    requires a <= b && n >= 0
    ensures a * n <= b * n
  {
  }

  lemma MulAtLeastOne(a: int, b: int)
    ensures a >= 1 && b >= 1 ==> a * b >= 1
  {
  }

  lemma MulLtCancel(a: int, b: int, n: int)
    requires n > 0 && a * n < b * n
    ensures a < b
  {
    if a >= b {
      MulMono(b, a, n);
    }
  }

  lemma MulAssoc(a: int, b: int, c: int)
    ensures a * (b * c) == (a * b) * c
  {
  }

  lemma MulDistrib(a: int, b: int, c: int)
    ensures (a + b) * c == a * c + b * c
  {
  }

  lemma DivMod(x: nat, n: nat)
    requires n > 0
    ensures x == (x / n) * n + x % n && 0 <= x % n < n
  {
  }

  /** A quotient and remainder are determined by the equation they satisfy. */
  lemma DivModUnique(x: nat, n: nat, q: nat, r: nat)
    requires n > 0 && r < n && x == q * n + r
    ensures x / n == q && x % n == r
  {
    DivMod(x, n);
    MulLtCancel(q, x / n + 1, n);
    MulLtCancel(x / n, q + 1, n);
  }

  /** A digit below its radix e, times the weight w, plus a remainder below
      w, stays below e * w. */
  lemma DigitBound(c: int, e: int, w: int, rest: int)
    requires 0 <= c < e && 0 <= rest < w
    ensures c * w + rest < e * w
  {
    MulDistrib(c, 1, w);
    MulMono(c + 1, e, w);
  }

  /** One Horner step: (l * e + c) * w + rest == l * (e * w) + (c * w + rest). */
  lemma HornerStep(l: int, e: int, c: int, w: int, rest: int)
    ensures (l * e + c) * w + rest == l * (e * w) + (c * w + rest)
  {
    MulDistrib(l * e, c, w);
    MulAssoc(l, e, w);
  }

  /** Dividing by a then by b is dividing by b * a; the remainder modulo
      b * a splits into the two remainders. */
  lemma DivModNested(x: nat, a: nat, b: nat)
    requires a > 0 && b > 0
    ensures (x / a) / b == x / (b * a)
    ensures x % (b * a) == ((x / a) % b) * a + x % a
  {
    var q, r := x / a, x % a;
    DivMod(x, a);
    DivMod(q, b);
    var q2, r2 := q / b, q % b;
    DigitBound(r2, b, a, r);
    HornerStep(q2, b, r2, a, r);
    MulAssoc(q2, b, a);
    DivModUnique(x, b * a, q2, r2 * a + r);
  }

  /** Below x == q * n + r with r < n, the quotient times n stays below any
      m * n above x. */
  lemma QuotientBelow(x: nat, n: nat, m: nat)
    requires n > 0 && x < m * n
    ensures x / n < m
  {
    DivMod(x, n);
    MulLtCancel(x / n, m, n);
  }
}

module Broadcast {
  import opened Arith

  /** The four extents of a tensor, outermost axis first. */
  type Shape = s: seq<nat> | |s| == 4 witness [1, 1, 1, 1]

  /** Every extent is at least 1, as the constructor demands. */
  predicate Positive(s: Shape) {
    forall d :: 0 <= d < 4 ==> s[d] >= 1
  }

  /** Number of elements: the product of the four extents. */
  function Size(s: Shape): nat {
    s[0] * s[1] * s[2] * s[3]
  }

  /** Product of the extents of axes k..3: the distance between two
      consecutive coordinates on axis k - 1. */
  function Stride(s: Shape, k: nat): (r: nat)
    requires k <= 4
    ensures Positive(s) ==> r >= 1
    decreases 4 - k
  {
    if k == 4 then 1
    else
      MulAtLeastOne(s[k], Stride(s, k + 1));
      s[k] * Stride(s, k + 1)
  }

  /** Coordinates c address an element of a tensor of shape s. */
  predicate InRange(s: Shape, c: seq<nat>) {
    |c| == 4 && forall d :: 0 <= d < 4 ==> c[d] < s[d]
  }

  /** Row-major decomposition of a flat index into coordinates. */
  function Coords(s: Shape, idx: nat): (c: seq<nat>)
    requires Positive(s)
    ensures InRange(s, c)
  {
    seq(4, (d: int) requires 0 <= d < 4 => (idx / Stride(s, d + 1)) % s[d] as nat)
  }

  /** Contribution of axes k..3 of the coordinates c to a flat index. */
  function Offset(s: Shape, c: seq<nat>, k: nat): nat
    requires |c| == 4 && k <= 4
    decreases 4 - k
  {
    if k == 4 then 0 else c[k] * Stride(s, k + 1) + Offset(s, c, k + 1)
  }

  /** Row-major flat index of the coordinates c. */
  function Flatten(s: Shape, c: seq<nat>): nat
    requires |c| == 4
  {
    Offset(s, c, 0)
  }

  /** Value of the leading coordinates c[0..k] read as a mixed-radix number. */
  function Leading(s: Shape, c: seq<nat>, k: nat): nat
    requires |c| == 4 && k <= 4
  {
    if k == 0 then 0 else Leading(s, c, k - 1) * s[k - 1] + c[k - 1]
  }

  /** The shape of the second operand can be broadcast onto thisShape: on
      every axis its extent is 1 or equal to the extent of thisShape. */
  predicate Broadcastable(thisShape: Shape, otherShape: Shape) {
    forall d :: 0 <= d < 4 ==> otherShape[d] == 1 || otherShape[d] == thisShape[d]
  }

  /** Coordinates c with every axis on which otherShape has extent 1 pinned to 0. */
  function Project(otherShape: Shape, c: seq<nat>): (p: seq<nat>)
    requires |c| == 4
    ensures |p| == 4
  {
    seq(4, (d: int) requires 0 <= d < 4 => if otherShape[d] == 1 then 0 else c[d])
  }

  /** Flat index, in a tensor of shape otherShape, of the element that is
      added to element idx of a tensor of shape thisShape: the coordinates of
      idx, with the broadcast axes pinned to 0. It always addresses an
      element of the second operand when the shapes are compatible. */
  function BroadcastOffset(thisShape: Shape, otherShape: Shape, idx: nat): (r: nat)
    requires Positive(thisShape)
    ensures Broadcastable(thisShape, otherShape) ==> r < Size(otherShape)
  {
    var p := Project(otherShape, Coords(thisShape, idx));
    assert Broadcastable(thisShape, otherShape) ==> Flatten(otherShape, p) < Size(otherShape) by {
      if Broadcastable(thisShape, otherShape) {
        FlattenBound(otherShape, p);
      }
    }
    Flatten(otherShape, p)
  }

  // ---------------------------------------------------------------------
  // Strides, flattening and decomposition.

  /** The stride of the whole shape is its size. */
  lemma StrideZeroIsSize(s: Shape)
    ensures Stride(s, 0) == Size(s)
  {
    assert Stride(s, 3) == s[3] * 1;
    assert Stride(s, 2) == s[2] * Stride(s, 3);
    assert Stride(s, 1) == s[1] * Stride(s, 2);
    assert Stride(s, 0) == s[0] * Stride(s, 1);
    MulAssoc(s[1], s[2], s[3]);
    MulAssoc(s[0], s[1] * s[2], s[3]);
    MulAssoc(s[0], s[1], s[2]);
  }

  /** Axes k..3 of in-range coordinates stay below the stride of axis k - 1. */
  lemma {:induction false} OffsetBound(s: Shape, c: seq<nat>, k: nat)
    requires InRange(s, c) && k <= 4
    ensures Offset(s, c, k) < Stride(s, k)
    decreases 4 - k
  {
    if k < 4 {
      OffsetBound(s, c, k + 1);
      DigitBound(c[k], s[k], Stride(s, k + 1), Offset(s, c, k + 1));
    }
  }

  /** Every in-range coordinate vector has a flat index inside the buffer. */
  lemma FlattenBound(s: Shape, c: seq<nat>)
    requires InRange(s, c)
    ensures Flatten(s, c) < Size(s)
  {
    OffsetBound(s, c, 0);
    StrideZeroIsSize(s);
  }

  /** Axes k..3 of the coordinates of idx give back idx modulo the stride. */
  lemma {:induction false} OffsetOfCoords(s: Shape, idx: nat, k: nat)
    requires Positive(s) && k <= 4
    ensures Offset(s, Coords(s, idx), k) == idx % Stride(s, k)
    decreases 4 - k
  {
    if k < 4 {
      OffsetOfCoords(s, idx, k + 1);
      DivModNested(idx, Stride(s, k + 1), s[k]);
    } else {
      DivMod(idx, 1);
    }
  }

  /** One step of the quotient in the broadcast index computation: dividing
      by the extent of axis dim drops that axis's coordinate. */
  lemma QuotientStep(thisShape: Shape, idx: nat, dim: nat)
    requires Positive(thisShape) && dim < 4
    ensures (idx / Stride(thisShape, dim + 1)) / thisShape[dim] == idx / Stride(thisShape, dim)
  {
    DivModNested(idx, Stride(thisShape, dim + 1), thisShape[dim]);
  }

  /** One iteration of the axis loop of operator+= on axis dim, from the
      values it holds for axes dim + 1..3 to those for axes dim..3. */
  lemma IndexStep(thisShape: Shape, otherShape: Shape, idx: nat, dim: nat,
                  linear: int, stride: int, b: int)
    requires Positive(thisShape) && dim < 4
    requires linear == idx / Stride(thisShape, dim + 1) && stride == Stride(otherShape, dim + 1)
    requires b == Offset(otherShape, Project(otherShape, Coords(thisShape, idx)), dim + 1)
    ensures linear / thisShape[dim] == idx / Stride(thisShape, dim)
    ensures stride * otherShape[dim] == Stride(otherShape, dim)
    ensures (if otherShape[dim] != 1 then b + (linear % thisShape[dim]) * stride else b)
      == Offset(otherShape, Project(otherShape, Coords(thisShape, idx)), dim)
  {
    QuotientStep(thisShape, idx, dim);
    var p := Project(otherShape, Coords(thisShape, idx));
    assert Offset(otherShape, p, dim) == p[dim] * stride + b;
    assert p[dim] == if otherShape[dim] == 1 then 0 else linear % thisShape[dim];
  }

  /** Decomposing a flat index and flattening the coordinates gives the index back. */
  lemma FlattenCoords(s: Shape, idx: nat)
    requires Positive(s) && idx < Size(s)
    ensures Flatten(s, Coords(s, idx)) == idx
  {
    OffsetOfCoords(s, idx, 0);
    StrideZeroIsSize(s);
    DivModUnique(idx, Size(s), 0, idx);
  }

  /** The flat index splits into the leading coordinates times a stride plus
      the offset of the trailing ones. */
  lemma {:induction false} FlattenSplit(s: Shape, c: seq<nat>, k: nat)
    requires |c| == 4 && k <= 4
    ensures Flatten(s, c) == Leading(s, c, k) * Stride(s, k) + Offset(s, c, k)
  {
    if k > 0 {
      FlattenSplit(s, c, k - 1);
      HornerStep(Leading(s, c, k - 1), s[k - 1], c[k - 1], Stride(s, k), Offset(s, c, k));
    }
  }

  /** Flattening in-range coordinates and decomposing the index gives the
      coordinates back. */
  lemma CoordsFlatten(s: Shape, c: seq<nat>)
    requires Positive(s) && InRange(s, c)
    ensures Coords(s, Flatten(s, c)) == c
  {
    var x := Flatten(s, c);
    forall d | 0 <= d < 4
      ensures Coords(s, x)[d] == c[d]
    {
      var w := Stride(s, d + 1);
      FlattenSplit(s, c, d + 1);
      OffsetBound(s, c, d + 1);
      DivModUnique(x, w, Leading(s, c, d + 1), Offset(s, c, d + 1));
      DivModUnique(x / w, s[d], Leading(s, c, d), c[d]);
    }
  }
}

module BroadcastProperties {
  import opened Arith
  import opened Broadcast

  /** The element of the second operand read for element idx sits at the
      coordinates of idx, with every broadcast axis at coordinate 0. */
  lemma BroadcastSelects(thisShape: Shape, otherShape: Shape, idx: nat)
    requires Positive(thisShape) && Broadcastable(thisShape, otherShape)
    ensures Positive(otherShape)
    ensures Coords(otherShape, BroadcastOffset(thisShape, otherShape, idx))
      == Project(otherShape, Coords(thisShape, idx))
  {
    var p := Project(otherShape, Coords(thisShape, idx));
    assert InRange(otherShape, p);
    CoordsFlatten(otherShape, p);
  }

  /** Operands of equal shape are added element by element. */
  lemma SameShapeIsIdentity(s: Shape, idx: nat)
    requires Positive(s) && idx < Size(s)
    ensures BroadcastOffset(s, s, idx) == idx
  {
    var c := Coords(s, idx);
    assert Project(s, c) == c;
    FlattenCoords(s, idx);
  }

  /** A second operand of shape [1, 1, 1, 1] contributes its single element
      to every element. */
  lemma ScalarBroadcast(thisShape: Shape, idx: nat)
    requires Positive(thisShape)
    ensures BroadcastOffset(thisShape, [1, 1, 1, 1], idx) == 0
  {
    var p := Project([1, 1, 1, 1], Coords(thisShape, idx));
    assert p == [0, 0, 0, 0];
  }

  /** With only the innermost extent of thisShape replaced by 1, every stride
      of the smaller shape times that extent is the stride of thisShape. */
  lemma {:induction false} InnerStride(thisShape: Shape, otherShape: Shape, k: nat)
    requires k <= 3 && otherShape == thisShape[..3] + [1]
    ensures Stride(thisShape, k) == Stride(otherShape, k) * thisShape[3]
    decreases 3 - k
  {
    if k < 3 {
      InnerStride(thisShape, otherShape, k + 1);
      assert otherShape[k] == thisShape[k];
      MulAssoc(thisShape[k], Stride(otherShape, k + 1), thisShape[3]);
    } else {
      assert otherShape[3] == 1;
    }
  }

  /** With only the innermost extent of thisShape replaced by 1, coordinate
      d < 3 of idx is coordinate d of idx / thisShape[3] in the smaller shape. */
  lemma InnerCoord(thisShape: Shape, otherShape: Shape, idx: nat, d: nat)
    requires Positive(thisShape) && otherShape == thisShape[..3] + [1] && d < 3
    ensures Positive(otherShape)
    ensures Coords(thisShape, idx)[d] == Coords(otherShape, idx / thisShape[3])[d]
  {
    assert otherShape[d] == thisShape[d];
    InnerStride(thisShape, otherShape, d + 1);
    DivModNested(idx, thisShape[3], Stride(otherShape, d + 1));
  }

  /** With only the innermost extent of thisShape replaced by 1, the leading
      coordinates of idx are those of idx / thisShape[3] in the smaller shape. */
  lemma InnerCoords(thisShape: Shape, otherShape: Shape, idx: nat)
    requires Positive(thisShape) && otherShape == thisShape[..3] + [1]
    ensures Positive(otherShape)
    ensures Project(otherShape, Coords(thisShape, idx)) == Coords(otherShape, idx / thisShape[3])
  {
    var q := idx / thisShape[3];
    forall d | 0 <= d < 3
      ensures Coords(thisShape, idx)[d] == Coords(otherShape, q)[d]
    {
      InnerCoord(thisShape, otherShape, idx, d);
    }
    assert otherShape[3] == 1;
    DivMod(q / Stride(otherShape, 4), 1);
  }

  /** With only the innermost extent of thisShape replaced by 1, an index of
      thisShape divided by that extent is an index of the smaller shape. */
  lemma InnerQuotientInRange(thisShape: Shape, otherShape: Shape, idx: nat)
    requires Positive(thisShape) && otherShape == thisShape[..3] + [1] && idx < Size(thisShape)
    ensures idx / thisShape[3] < Size(otherShape)
  {
    InnerStride(thisShape, otherShape, 0);
    StrideZeroIsSize(thisShape);
    StrideZeroIsSize(otherShape);
    QuotientBelow(idx, thisShape[3], Size(otherShape));
  }

  /** Broadcasting along the innermost axis only: element idx reads element
      idx / thisShape[3] of the second operand. */
  lemma InnerAxisBroadcast(thisShape: Shape, otherShape: Shape, idx: nat)
    requires Positive(thisShape) && otherShape == thisShape[..3] + [1] && idx < Size(thisShape)
    ensures BroadcastOffset(thisShape, otherShape, idx) == idx / thisShape[3]
  {
    InnerCoords(thisShape, otherShape, idx);
    InnerQuotientInRange(thisShape, otherShape, idx);
    FlattenCoords(otherShape, idx / thisShape[3]);
  }
}
