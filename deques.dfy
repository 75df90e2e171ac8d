/**
 * Deque: a double-ended queue that keeps its elements in a Vector held by
 * value. Every operation forwards to the vector, so a panic of the vector
 * (an empty vector at Front, Back or a Pop) is the deque's panic too.
 */
module Deques {
  import opened Common
  import opened Vectors

  class Deque<T> {
    /** The wrapped vector (the Go struct's `data` field), front at index 0. */
    const vec: Vector<T>

    /** NewDeque / MakeDeque: an empty deque. */
    constructor ()
      ensures fresh(vec) && vec.data == [] && vec.Destroyed == []
    {
      vec := new Vector();
    }

    /** NewDequeFromData / MakeDequeFromData: a deque holding `values`, front first. */
    constructor FromData(values: seq<T>)
      ensures fresh(vec) && vec.data == values && vec.Destroyed == []
    {
      vec := new Vector.FromData(values);
    }

    /** NewDequeFromDeque / MakeDequeFromDeque: a deque holding the elements of `other` in order. */
    constructor FromDeque(other: Deque<T>)
      ensures fresh(vec) && vec.data == other.vec.data && vec.Destroyed == []
    {
      vec := new Vector.FromVector(other.vec);
    }

    /** The first element; an empty deque panics. */
    function Front(): (r: Result<T>)
      reads this, vec
      ensures r.Ok? <==> !IsEmpty()
      ensures r.Ok? ==> r.value == vec.data[0]
      ensures r.Err? ==> r.error == EmptyVector
    {
      vec.Front()
    }

    /** The last element; an empty deque panics. */
    function Back(): (r: Result<T>)
      reads this, vec
      ensures r.Ok? <==> !IsEmpty()
      ensures r.Ok? ==> r.value == vec.data[|vec.data| - 1]
      ensures r.Err? ==> r.error == EmptyVector
    {
      vec.Back()
    }

    function IsEmpty(): (r: bool)
      reads this, vec
      ensures r <==> vec.data == []
    {
      vec.IsEmpty()
    }

    function Size(): (r: nat)
      reads this, vec
      ensures r == |vec.data|
      ensures r == 0 <==> IsEmpty()
    {
      vec.Size()
    }

    /** Empties the deque, tearing the elements down from the back. */
    method Clear()
      modifies vec
      ensures vec.data == [] && Size() == 0
      ensures vec.Destroyed == old(vec.Destroyed) + Reversed(old(vec.data))
    {
      vec.Clear();
    }

    method PushBack(value: T)
      modifies vec
      ensures vec.data == old(vec.data) + [value]
      ensures vec.Destroyed == old(vec.Destroyed)
      ensures Back() == Ok(value)
    {
      vec.PushBack(value);
    }

    method PushFront(value: T)
      modifies vec
      ensures vec.data == [value] + old(vec.data)
      ensures vec.Destroyed == old(vec.Destroyed)
      ensures Front() == Ok(value)
    {
      vec.PushFront(value);
    }

    /** Removes the last element, tearing it down; an empty deque panics. */
    method PopBack() returns (outcome: Outcome)
      modifies vec
      ensures outcome.Pass? <==> old(vec.data) != []
      ensures outcome.Fail? ==> outcome.error == EmptyVector
      ensures outcome.Fail? ==> vec.data == old(vec.data) && vec.Destroyed == old(vec.Destroyed)
      ensures outcome.Pass? ==> vec.data == old(vec.data)[..|old(vec.data)| - 1]
      ensures outcome.Pass? ==> vec.Destroyed == old(vec.Destroyed) + [old(vec.data)[|old(vec.data)| - 1]]
    {
      outcome := vec.PopBack();
    }

    /** Removes the first element, tearing it down; an empty deque panics. */
    method PopFront() returns (outcome: Outcome)
      modifies vec
      ensures outcome.Pass? <==> old(vec.data) != []
      ensures outcome.Fail? ==> outcome.error == EmptyVector
      ensures outcome.Fail? ==> vec.data == old(vec.data) && vec.Destroyed == old(vec.Destroyed)
      ensures outcome.Pass? ==> vec.data == old(vec.data)[1..]
      ensures outcome.Pass? ==> vec.Destroyed == old(vec.Destroyed) + [old(vec.data)[0]]
    {
      outcome := vec.PopFront();
    }

    /** Exchanges the contents of the two deques; nothing is torn down. */
    method Swap(other: Deque<T>)
      modifies vec, other.vec
      ensures vec.data == old(other.vec.data) && other.vec.data == old(vec.data)
      ensures vec.Destroyed == old(vec.Destroyed) && other.vec.Destroyed == old(other.vec.Destroyed)
    {
      vec.Swap(other.vec);
    }
  }

  /** PushFront followed by PopFront leaves the deque as it was and tears the pushed value down. */
  method PushFrontThenPopFront<T>(d: Deque<T>, x: T)
    modifies d.vec
    ensures d.vec.data == old(d.vec.data)
    ensures d.vec.Destroyed == old(d.vec.Destroyed) + [x]
  {
    d.PushFront(x);
    var outcome := d.PopFront();
    assert ([x] + old(d.vec.data))[1..] == old(d.vec.data);
  }

  /** PushBack followed by PopBack leaves the deque as it was and tears the pushed value down. */
  method PushBackThenPopBack<T>(d: Deque<T>, x: T)
    modifies d.vec
    ensures d.vec.data == old(d.vec.data)
    ensures d.vec.Destroyed == old(d.vec.Destroyed) + [x]
  {
    d.PushBack(x);
    var outcome := d.PopBack();
  }

  /** PushFront of each value in turn: the values end up in front, last pushed first. */
  method PushAllFront<T>(d: Deque<T>, values: seq<T>)
    modifies d.vec
    ensures d.vec.data == Reversed(values) + old(d.vec.data)
    ensures d.vec.Destroyed == old(d.vec.Destroyed)
  {
    for i := 0 to |values|
      invariant d.vec.data == Reversed(values[..i]) + old(d.vec.data)
      invariant d.vec.Destroyed == old(d.vec.Destroyed)
    {
      d.PushFront(values[i]);
      ReversedSnoc(values[..i], values[i]);
      assert values[..i + 1] == values[..i] + [values[i]];
    }
    assert values[..|values|] == values;
  }

  /**
   * The two ends are independent: values pushed at the front come back from
   * the front in reverse order of pushing, while the back element stays put.
   */
  method BothEnds<T>(values: seq<T>, back: T) returns (popped: seq<T>, last: Result<T>)
    ensures popped == Reversed(values)
    ensures last == Ok(back)
  {
    var d := new Deque.FromData([back]);
    PushAllFront(d, values);
    ghost var r := Reversed(values);
    popped := [];
    while d.Size() > 1
      invariant |popped| <= |r| && popped == r[..|popped|]
      invariant d.vec.data == r[|popped|..] + [back]
      decreases |d.vec.data|
    {
      var front := d.Front();
      assert r[..|popped| + 1] == popped + [front.value];
      popped := popped + [front.value];
      var _ := d.PopFront();
    }
    last := d.Back();
    assert r[..|r|] == r;
  }
}
