/**
 * Stack: a last-in first-out stack that keeps its elements in a Vector held by
 * value, top at the back. Push and Pop work on the vector's back; every
 * operation forwards to the vector.
 */
module Stacks {
  import opened Common
  import opened Vectors

  class Stack<T> {
    /** The wrapped vector (the Go struct's `data` field), top at its back. */
    const vec: Vector<T>

    /** NewStack / MakeStack: an empty stack. */
    constructor ()
      ensures fresh(vec) && vec.data == [] && vec.Destroyed == []
    {
      vec := new Vector();
    }

    /** NewStackFromData / MakeStackFromData: a stack holding `values`, the last of them on top. */
    constructor FromData(values: seq<T>)
      ensures fresh(vec) && vec.data == values && vec.Destroyed == []
    {
      vec := new Vector.FromData(values);
    }

    /** NewStackFromStack / MakeStackFromStack: a stack holding the elements of `other` in order. */
    constructor FromStack(other: Stack<T>)
      ensures fresh(vec) && vec.data == other.vec.data && vec.Destroyed == []
    {
      vec := new Vector.FromVector(other.vec);
    }

    /** The top element, the most recently pushed one still there; an empty stack panics. */
    function Top(): (r: Result<T>)
      reads this, vec
      ensures r.Ok? <==> !IsEmpty()
      ensures r.Ok? ==> r.value == vec.data[|vec.data| - 1]
      ensures r.Err? ==> r.error == EmptyVector
    {
      vec.Back()
    }

    function IsEmpty(): (r: bool)
      reads this, vec
      ensures r <==> vec.data == []
    {
      vec.IsEmpty()
    }

    function Size(): (r: nat)
      reads this, vec
      ensures r == |vec.data|
      ensures r == 0 <==> IsEmpty()
    {
      vec.Size()
    }

    /** Empties the stack, tearing the elements down from the top. */
    method Clear()
      modifies vec
      ensures vec.data == [] && Size() == 0
      ensures vec.Destroyed == old(vec.Destroyed) + Reversed(old(vec.data))
    {
      vec.Clear();
    }

    /** Pushes `value`, which becomes the top. */
    method Push(value: T)
      modifies vec
      ensures vec.data == old(vec.data) + [value]
      ensures vec.Destroyed == old(vec.Destroyed)
      ensures Top() == Ok(value) && Size() == old(Size()) + 1
    {
      vec.PushBack(value);
    }

    /** Removes the top element, tearing it down; an empty stack panics. */
    method Pop() returns (outcome: Outcome)
      modifies vec
      ensures outcome.Pass? <==> old(vec.data) != []
      ensures outcome.Fail? ==> outcome.error == EmptyVector
      ensures outcome.Fail? ==> vec.data == old(vec.data) && vec.Destroyed == old(vec.Destroyed)
      ensures outcome.Pass? ==> vec.data == old(vec.data)[..|old(vec.data)| - 1] && Size() == old(Size()) - 1
      ensures outcome.Pass? ==> vec.Destroyed == old(vec.Destroyed) + [old(vec.data)[|old(vec.data)| - 1]]
    {
      outcome := vec.PopBack();
    }

    /** Exchanges the contents of the two stacks; nothing is torn down. */
    method Swap(other: Stack<T>)
      modifies vec, other.vec
      ensures vec.data == old(other.vec.data) && other.vec.data == old(vec.data)
      ensures vec.Destroyed == old(vec.Destroyed) && other.vec.Destroyed == old(other.vec.Destroyed)
    {
      vec.Swap(other.vec);
    }
  }

  /** Push followed by Pop restores the stack and tears the pushed value down. */
  method PushThenPop<T>(s: Stack<T>, x: T)
    modifies s.vec
    ensures s.vec.data == old(s.vec.data)
    ensures s.vec.Destroyed == old(s.vec.Destroyed) + [x]
  {
    s.Push(x);
    var outcome := s.Pop();
  }

  /**
   * Last in, first out: values pushed onto an empty stack and then popped
   * until it is empty come out in reverse order.
   */
  method LifoOrder<T>(values: seq<T>) returns (popped: seq<T>)
    ensures popped == Reversed(values)
  {
    var s := new Stack();
    for i := 0 to |values|
      invariant s.vec.data == values[..i]
    {
      s.Push(values[i]);
      assert values[..i + 1] == values[..i] + [values[i]];
    }
    assert values[..|values|] == values;
    popped := [];
    while !s.IsEmpty()
      invariant |s.vec.data| <= |values| && s.vec.data == values[..|s.vec.data|]
      invariant popped == Reversed(values[|s.vec.data|..])
      decreases s.Size()
    {
      ghost var k := s.Size();
      var top := s.Top();
      popped := popped + [top.value];
      var _ := s.Pop();
      assert values[k - 1..][1..] == values[k..];
      assert values[..k][..k - 1] == values[..k - 1];
    }
    assert values[0..] == values;
  }
}
