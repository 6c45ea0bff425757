# Tensor4D: a rank-4 tensor with broadcasting add

This project models the `Tensor4D<T>` class template from the learning-cxx
exercise `exercises/22_class_template/main.cpp`, with the element type `T` set
to `int`. A `Tensor4D` holds a shape of four extents and an owned row-major
buffer. The buffer has one element per index of the shape, and the last axis
varies fastest. The class has two operations:

- **Validating construction.** Each of the four extents must be at least 1,
  and this is checked axis by axis. The source pointer must not be null. The
  buffer is then allocated and the source elements are copied into it.
- **`operator+=` with one-directional broadcasting.** Every axis of the
  second operand must have extent 1 or the extent of the first. If one does
  not, the operator throws and nothing is changed. Otherwise every element of
  the first tensor gets an element of the second added to it. That element
  is found by splitting the flat index into coordinates, innermost axis
  first, and re-flattening them with the second operand's strides. An axis
  whose extent is 1 in the second operand does not contribute to the index.

The project has four modules:

- `Arith` (broadcast.dfy) holds small lemmas over plain integers:
  monotonicity and associativity of multiplication, and the uniqueness and
  nesting of quotient and remainder. Every non-linear step of the other
  proofs is one of these lemmas.
- `Broadcast` (broadcast.dfy) holds the index arithmetic as functions:
  - `Stride`, the row-major strides.
  - `Coords`, which decomposes a flat index into coordinates.
  - `Flatten`, which turns coordinates back into a flat index.
  - `Project`, which pins broadcast axes to 0.
  - `BroadcastOffset`, the reference definition of the index that
    `operator+=` computes.

  It also holds the lemmas that decomposition and flattening are inverse
  bijections between the index range and the in-range coordinates.
- `BroadcastProperties` (also in broadcast.dfy) proves what the broadcast
  index means. It is the coordinates of the element with the broadcast axes
  pinned to 0. It is the identity when the two shapes are equal. It is 0 for
  a shape of all ones. It is `idx / thisShape[3]` when only the innermost axis is
  broadcast.
- `Tensor` (tensor.dfy) holds the class `Tensor4D`, with a `shape` field and
  an `array<int>` buffer. `Create` is the throwing constructor, returning a
  `Result`. `AddAssign` is `operator+=`, updating the buffer in place. The
  source has four loops. The three loops over the axes (main.cpp lines 13, 38
  and 49) are the methods `CheckExtents`, `CheckBroadcast` and
  `ComputeBroadcastIndex`, each proved against its specification. The loop
  over flat indices (main.cpp line 44) is the loop of `AddAssign`.
- `Scenarios` (scenarios.dfy) holds the three test blocks of `main`. Each one
  builds two tensors, runs `AddAssign` and states the values that `main`
  asserts.

## Model

| member | source | states |
|---|---|---|
| `Broadcast.Stride` | exercises/22_class_template/main.cpp:47-56 | the running stride (a product of extents) is at least 1 when every extent is positive |
| `Broadcast.Coords` | exercises/22_class_template/main.cpp:49-51 | the row-major decomposition of a flat index, innermost axis first, gives each axis a coordinate below its extent |
| `Broadcast.BroadcastOffset` | exercises/22_class_template/main.cpp:45-57 | when the shapes are compatible, the index into the second operand is below the product of its extents, so the read `others.data[broadcastIdx]` is in bounds |
| `Broadcast.FlattenBound` | exercises/22_class_template/main.cpp:43-44 | every in-range coordinate vector flattens to an index below the product of the four extents |
| `Broadcast.FlattenCoords` | exercises/22_class_template/main.cpp:49-51 | decomposing an in-range flat index into coordinates and flattening them row-major gives the index back |
| `Broadcast.CoordsFlatten` | exercises/22_class_template/main.cpp:49-51 | flattening in-range coordinates and decomposing the result gives the coordinates back, so the layout is a bijection |
| `BroadcastProperties.BroadcastSelects` | exercises/22_class_template/main.cpp:49-57 | the element of the second operand added to element idx is the one at the coordinates of idx, with every axis of extent 1 in the second operand at coordinate 0 |
| `BroadcastProperties.SameShapeIsIdentity` | exercises/22_class_template/main.cpp:53-56 | when the two shapes are equal the broadcast index of idx is idx itself, so the add is element by element |
| `BroadcastProperties.ScalarBroadcast` | exercises/22_class_template/main.cpp:53-56 | when the second operand has shape [1, 1, 1, 1] every broadcast index is 0 |
| `BroadcastProperties.InnerAxisBroadcast` | exercises/22_class_template/main.cpp:49-57 | when the second operand's shape is the first's with the innermost extent replaced by 1, the broadcast index of idx is idx divided by that innermost extent |
| `Tensor.CheckExtents` | exercises/22_class_template/main.cpp:12-19 | the axis loop of the constructor fails with InvalidShape exactly when some extent is 0, and otherwise yields the product of the four extents |
| `Tensor.CheckBroadcast` | exercises/22_class_template/main.cpp:38-42 | the axis loop of `+=` accepts exactly when every extent of the second operand is 1 or equal to the first's |
| `Tensor.ComputeBroadcastIndex` | exercises/22_class_template/main.cpp:45-57 | the inner loop over axes 3 down to 0, with its running quotient, stride and sum, computes exactly BroadcastOffset |
| `Tensor.Tensor4D.constructor` | exercises/22_class_template/main.cpp:23-24 | allocates a fresh buffer of the computed size and copies the source elements into it |
| `Tensor.Tensor4D.Create` | exercises/22_class_template/main.cpp:11-25 | fails with InvalidShape if an extent is 0, which is checked first. Otherwise it fails with NullSource if there is no source. Otherwise it yields a fresh valid tensor whose shape is the given extents and whose buffer equals the first Size(shape) source elements |
| `Tensor.Tensor4D.AddAssign` | exercises/22_class_template/main.cpp:37-61 | fails with IncompatibleShape exactly when some axis is incompatible, leaving the buffer unchanged. Otherwise every element becomes its old value plus the second operand's element at BroadcastOffset, and the call returns this. The shapes and the second operand never change |
| `Scenarios.SelfAdd` | exercises/22_class_template/main.cpp:68-86 | adding an equal tensor of shape [1, 2, 3, 4] doubles each of the 24 elements |
| `Scenarios.InnerAxisAdd` | exercises/22_class_template/main.cpp:87-117 | adding the [1, 2, 3, 1] tensor 6..1 to the [1, 2, 3, 4] tensor of rows 1..6 makes every element 7 |
| `Scenarios.ScalarAdd` | exercises/22_class_template/main.cpp:118-139 | adding the [1, 1, 1, 1] tensor {1} to 1..24 increments every element by 1 |

## Left out

- Floating-point element types. The second and third scenarios of `main` use
  `float` and `double`. Here they are restated over `int`, where every value
  they involve is exact.
- Fixed-width `unsigned int` arithmetic. The size and stride products and the
  indices are unbounded naturals, so wrap-around of an overflowing product is
  not modelled.
- Raw memory management: `new[]`, `std::memcpy` and the destructor's
  `delete[]`. Allocation and copying are a fresh `array<int>` filled from a
  sequence. The source pointer is an optional sequence, and `None` stands for
  null.
- Tensor.Tensor4D.Create: requires a source of at least Size(shape)
  elements. `memcpy` reads that many elements, and a shorter source is
  undefined behaviour in C++.
- The constructor's stores to `this->shape[i]` before a later axis fails.
  No object results from a failed construction, so they have no observable
  effect. The model stores the whole shape once the checks pass.
- Exceptions as a mechanism. `std::invalid_argument` becomes the `Failure`
  case of a `Result`, with an error value naming the check that failed.
- Aliasing in `t0 += t0`. AddAssign requires that the two buffers are
  different arrays.
- The deleted copy and move constructors and the deduction guide. These are
  compile-time ownership rules with no run-time behaviour. A Dafny object is
  a reference and is never copied implicitly.
- The `ASSERT` harness and the I/O of `main`. The three test blocks are the
  methods of `Scenarios`.
