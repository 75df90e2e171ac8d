/**
 * Queue: a first-in first-out queue that keeps its elements in a Vector held
 * by value, oldest at index 0. Elements join at the back and leave from the
 * front; every operation forwards to the vector.
 */
module Queues {
  import opened Common
  import opened Vectors

  class Queue<T> {
    /** The wrapped vector (the Go struct's `data` field), oldest element at index 0. */
    const vec: Vector<T>

    /** NewQueue / MakeQueue: an empty queue. */
    constructor ()
      ensures fresh(vec) && vec.data == [] && vec.Destroyed == []
    {
      vec := new Vector();
    }

    /** NewQueueFromData / MakeQueueFromData: a queue holding `values`, the first of them oldest. */
    constructor FromData(values: seq<T>)
      ensures fresh(vec) && vec.data == values && vec.Destroyed == []
    {
      vec := new Vector.FromData(values);
    }

    /** NewQueueFromQueue / MakeQueueFromQueue: a queue holding the elements of `other` in order. */
    constructor FromQueue(other: Queue<T>)
      ensures fresh(vec) && vec.data == other.vec.data && vec.Destroyed == []
    {
      vec := new Vector.FromVector(other.vec);
    }

    /** The oldest element; an empty queue panics. */
    function Front(): (r: Result<T>)
      reads this, vec
      ensures r.Ok? <==> !IsEmpty()
      ensures r.Ok? ==> r.value == vec.data[0]
      ensures r.Err? ==> r.error == EmptyVector
    {
      vec.Front()
    }

    function IsEmpty(): (r: bool)
      reads this, vec
      ensures r <==> vec.data == []
    {
      vec.IsEmpty()
    }

    function Size(): (r: nat)
      reads this, vec
      ensures r == |vec.data|
      ensures r == 0 <==> IsEmpty()
    {
      vec.Size()
    }

    /** Empties the queue, tearing the elements down newest first. */
    method Clear()
      modifies vec
      ensures vec.data == [] && Size() == 0
      ensures vec.Destroyed == old(vec.Destroyed) + Reversed(old(vec.data))
    {
      vec.Clear();
    }

    /** Adds `value` as the newest element; the oldest element stays at the front. */
    method PushBack(value: T)
      modifies vec
      ensures vec.data == old(vec.data) + [value]
      ensures vec.Destroyed == old(vec.Destroyed)
      ensures Size() == old(Size()) + 1
      ensures Front() == if old(IsEmpty()) then Ok(value) else old(Front())
    {
      vec.PushBack(value);
    }

    /** Removes the oldest element, tearing it down; an empty queue panics. */
    method PopFront() returns (outcome: Outcome)
      modifies vec
      ensures outcome.Pass? <==> old(vec.data) != []
      ensures outcome.Fail? ==> outcome.error == EmptyVector
      ensures outcome.Fail? ==> vec.data == old(vec.data) && vec.Destroyed == old(vec.Destroyed)
      ensures outcome.Pass? ==> vec.data == old(vec.data)[1..] && Size() == old(Size()) - 1
      ensures outcome.Pass? ==> vec.Destroyed == old(vec.Destroyed) + [old(vec.data)[0]]
    {
      outcome := vec.PopFront();
    }

    /** Exchanges the contents of the two queues; nothing is torn down. */
    method Swap(other: Queue<T>)
      modifies vec, other.vec
      ensures vec.data == old(other.vec.data) && other.vec.data == old(vec.data)
      ensures vec.Destroyed == old(vec.Destroyed) && other.vec.Destroyed == old(other.vec.Destroyed)
    {
      vec.Swap(other.vec);
    }
  }

  /**
   * First in, first out: values pushed into an empty queue and then taken from
   * the front until it is empty come out in the order they went in.
   */
  method FifoOrder<T>(values: seq<T>) returns (popped: seq<T>)
    ensures popped == values
  {
    var q := new Queue();
    for i := 0 to |values|
      invariant q.vec.data == values[..i]
    {
      q.PushBack(values[i]);
      assert values[..i + 1] == values[..i] + [values[i]];
    }
    assert values[..|values|] == values;
    popped := [];
    while !q.IsEmpty()
      invariant popped + q.vec.data == values
      decreases q.Size()
    {
      var front := q.Front();
      popped := popped + [front.value];
      var _ := q.PopFront();
    }
  }
}
