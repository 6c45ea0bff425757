/** The three scenarios of the exercise's main function, with the element
    type int: each builds two tensors, adds the second into the first and
    returns the first tensor's buffer, whose expected contents the
    postcondition states. */
module Scenarios {
  import opened Broadcast
  import opened BroadcastProperties
  import opened Tensor

  /** 1, 2, ..., 24 laid out with shape [1, 2, 3, 4]. */
  const Counting: seq<int> := [
     1,  2,  3,  4,
     5,  6,  7,  8,
     9, 10, 11, 12,
    13, 14, 15, 16,
    17, 18, 19, 20,
    21, 22, 23, 24]

  /** Rows of four equal values 1..6, laid out with shape [1, 2, 3, 4]. */
  const Blocks: seq<int> := [
    1, 1, 1, 1,
    2, 2, 2, 2,
    3, 3, 3, 3,
    4, 4, 4, 4,
    5, 5, 5, 5,
    6, 6, 6, 6]

  /** 6 down to 1, laid out with shape [1, 2, 3, 1]. */
  const Countdown: seq<int> := [6, 5, 4, 3, 2, 1]

  /** Row k of Blocks plus element k of Countdown is 7. */
  lemma BlocksPlusCountdown()
    ensures forall i :: 0 <= i < 24 ==> Blocks[i] + Countdown[i / 4] == 7
  {
    assert Blocks == seq(24, i => i / 4 + 1);
    assert Countdown == seq(6, j => 6 - j);
  }

  /** A tensor plus an equal copy of itself is doubled. */
  method SelfAdd() returns (result: seq<int>)
    ensures |result| == 24
    ensures forall i :: 0 <= i < 24 ==> result[i] == Counting[i] * 2
  {
    var s: Shape := [1, 2, 3, 4];
    var r0 := Tensor4D.Create(s, Some(Counting));
    var r1 := Tensor4D.Create(s, Some(Counting));
    var t0, t1 := r0.value, r1.value;
    var r := t0.AddAssign(t1);
    forall i | 0 <= i < 24
      ensures BroadcastOffset(s, s, i) == i
    {
      SameShapeIsIdentity(s, i);
    }
    result := t0.data[..];
  }

  /** Broadcasting [1, 2, 3, 1] along the innermost axis: every element of
      the sum is 7. */
  method InnerAxisAdd() returns (result: seq<int>)
    ensures |result| == 24
    ensures forall i :: 0 <= i < 24 ==> result[i] == 7
  {
    var s0: Shape := [1, 2, 3, 4];
    var s1: Shape := [1, 2, 3, 1];
    var r0 := Tensor4D.Create(s0, Some(Blocks));
    var r1 := Tensor4D.Create(s1, Some(Countdown));
    var t0, t1 := r0.value, r1.value;
    var r := t0.AddAssign(t1);
    forall i | 0 <= i < 24
      ensures BroadcastOffset(s0, s1, i) == i / 4
    {
      InnerAxisBroadcast(s0, s1, i);
    }
    BlocksPlusCountdown();
    result := t0.data[..];
  }

  /** Broadcasting a single element: every element is incremented by 1. */
  method ScalarAdd() returns (result: seq<int>)
    ensures |result| == 24
    ensures forall i :: 0 <= i < 24 ==> result[i] == Counting[i] + 1
  {
    var s0: Shape := [1, 2, 3, 4];
    var s1: Shape := [1, 1, 1, 1];
    var r0 := Tensor4D.Create(s0, Some(Counting));
    var r1 := Tensor4D.Create(s1, Some([1]));
    var t0, t1 := r0.value, r1.value;
    var r := t0.AddAssign(t1);
    forall i | 0 <= i < 24
      ensures BroadcastOffset(s0, s1, i) == 0
    {
      ScalarBroadcast(s0, i);
    }
    result := t0.data[..];
  }
}
