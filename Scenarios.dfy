/** The crate's own test scenario and the capacity-1 edge case, replayed
    against the contracts of `CircleBuffer`. */
module Scenarios {
  import CB = CircleBuffer

  /** Pushes `a + 3`, `a + 4` and `a + 5` into a full buffer of capacity 3
      whose view is `[a, a + 1, a + 2]`, checking the view after each push. */
  method PushNextThree(queue: CB.CircleBuffer<int>, a: int)
    requires queue.Valid() && queue.size == 3
    requires queue.AsSlice() == [a, a + 1, a + 2]
    modifies queue
    ensures queue.Valid() && queue.size == 3
    ensures queue.AsSlice() == [a + 3, a + 4, a + 5]
  {
    queue.Push(a + 3);
    assert queue.AsSlice() == [a + 1, a + 2, a + 3];
    queue.Push(a + 4);
    assert queue.AsSlice() == [a + 2, a + 3, a + 4];
    queue.Push(a + 5);
  }

  /** Capacity 3: pushing 1, 2 and 3 into an empty buffer grows the view
      one value at a time. */
  method FillThree() returns (queue: CB.CircleBuffer<int>)
    ensures fresh(queue) && queue.Valid() && queue.size == 3
    ensures queue.AsSlice() == [1, 2, 3]
  {
    queue := new CB.CircleBuffer<int>.WithCapacity(3);
    queue.Push(1);
    assert queue.AsSlice() == [1];
    queue.Push(2);
    assert queue.AsSlice() == [1, 2];
    queue.Push(3);
  }

  /** Capacity 3, values 1 to 17 pushed one by one; after each push the view
      is the last (at most) three values, oldest first. */
  method CapacityThree() returns (view: seq<int>)
    ensures view == [15, 16, 17]
  {
    var queue := FillThree();
    PushNextThree(queue, 1);
    PushNextThree(queue, 4);
    PushNextThree(queue, 7);
    PushNextThree(queue, 10);
    queue.Push(16);
    assert queue.AsSlice() == [14, 15, 16];
    queue.Push(17);
    view := queue.AsSlice();
  }

  /** Capacity 1: every push replaces the single element. */
  method CapacityOne(x: int, y: int) returns (first: seq<int>, second: seq<int>)
    ensures first == [x] && second == [y]
  {
    var queue := new CB.CircleBuffer<int>.WithCapacity(1);
    queue.Push(x);
    first := queue.AsSlice();
    queue.Push(y);
    second := queue.AsSlice();
  }
}
