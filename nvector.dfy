/**
 * NVector: the vector for natively comparable element types.
 *
 * It stores its elements like Vector but compares them with the language's `==`
 * (no capability check) and never tears elements down, so it has no teardown
 * log. Its ordered searches are plain loops that return at the first match, and
 * report a miss as (false, -1).
 */
module NVectors {
  import opened Common
  import opened Chunks
  import opened Sequences
  import opened Vectors

  /** The language's `==` as an equality function. */
  function NativeEqual<T(==)>(a: T, b: T): bool {
    a == b
  }

  class NVector<T(==)> {
    var data: seq<T>

    /** NewNVector. */
    constructor ()
      ensures data == []
    {
      data := [];
    }

    /** NewNVectorFromData. */
    constructor FromData(values: seq<T>)
      ensures data == values
    {
      data := values;
    }

    /** NewNVectorFromNVector: the same elements in the same order. */
    constructor FromNVector(other: NVector<T>)
      ensures data == other.data
    {
      data := other.data;
    }

    /** NewNVectorFromVector: the same elements in the same order. */
    constructor FromVector(other: Vector<T>)
      ensures data == other.data
    {
      data := other.data;
    }

    /** NewVectorFromNVector: a fresh Vector with the same elements in the same order. */
    method ToVector() returns (v: Vector<T>)
      ensures fresh(v) && v.data == data && v.Destroyed == []
    {
      v := new Vector.FromData(data);
    }

    // -------------------------------------------------------------------------
    // Access
    // -------------------------------------------------------------------------

    function At(index: int): (r: T)
      reads this
      requires 0 <= index < |data|
      ensures SafeAt(index) == Ok(r)
    {
      data[index]
    }

    function SafeAt(index: int): (r: Result<T>)
      reads this
      ensures r.Ok? <==> 0 <= index < |data|
      ensures r.Ok? ==> r.value == data[index]
      ensures |data| == 0 ==> r == Err(EmptyVector)
      ensures |data| > 0 && !(0 <= index < |data|) ==> r == Err(IndexOutOfRange)
    {
      if |data| > 0 then
        if 0 <= index < |data| then Ok(data[index]) else Err(IndexOutOfRange)
      else Err(EmptyVector)
    }

    function IsEmpty(): (r: bool)
      reads this
      ensures r <==> data == []
    {
      |data| == 0
    }

    function Size(): (r: nat)
      reads this
      ensures r == 0 <==> IsEmpty()
      ensures forall i :: 0 <= i < r <==> SafeAt(i).Ok?
    {
      |data|
    }

    function AtRef(index: int): (r: Ref)
      reads this
      requires 0 <= index < |data|
      ensures SafeAtRef(index) == Ok(r)
      ensures r.Slot? && r.index == index && data[r.index] == At(index)
    {
      Slot(index)
    }

    function SafeAtRef(index: int): (r: Result<Ref>)
      reads this
      ensures r.Ok? <==> SafeAt(index).Ok?
      ensures r.Ok? ==> r.value.Slot? && r.value.index == index
      ensures r.Err? ==> r.error == SafeAt(index).error
    {
      if |data| > 0 then
        if 0 <= index < |data| then Ok(Slot(index)) else Err(IndexOutOfRange)
      else Err(EmptyVector)
    }

    function Front(): (r: Result<T>)
      reads this
      ensures r.Ok? <==> !IsEmpty()
      ensures r.Ok? ==> r == SafeAt(0)
      ensures r.Err? ==> r.error == EmptyVector
    {
      if !IsEmpty() then Ok(At(0)) else Err(EmptyVector)
    }

    function FrontRef(): (r: Result<Ref>)
      reads this
      ensures r.Ok? <==> !IsEmpty()
      ensures r.Ok? ==> r == SafeAtRef(0)
      ensures r.Err? ==> r.error == EmptyVector
    {
      if !IsEmpty() then Ok(AtRef(0)) else Err(EmptyVector)
    }

    function Back(): (r: Result<T>)
      reads this
      ensures r.Ok? <==> !IsEmpty()
      ensures r.Ok? ==> r == SafeAt(Size() - 1)
      ensures r.Err? ==> r.error == EmptyVector
    {
      if !IsEmpty() then Ok(At(Size() - 1)) else Err(EmptyVector)
    }

    function BackRef(): (r: Result<Ref>)
      reads this
      ensures r.Ok? <==> !IsEmpty()
      ensures r.Ok? ==> r == SafeAtRef(Size() - 1)
      ensures r.Err? ==> r.error == EmptyVector
    {
      if !IsEmpty() then Ok(AtRef(Size() - 1)) else Err(EmptyVector)
    }

    // -------------------------------------------------------------------------
    // Mutators
    // -------------------------------------------------------------------------

    /** Drops every element at once, with no per-element work. */
    method Clear()
      modifies this
      ensures data == []
    {
      data := [];
    }

    method Insert(index: int, value: T) returns (outcome: Outcome)
      modifies this
      ensures outcome.Fail? <==> index < 0 || index > |old(data)|
      ensures outcome.Fail? ==> outcome.error == IndexOutOfBounds && data == old(data)
      ensures outcome.Pass? ==> data == InsertedAt(old(data), index, value)
    {
      if index < 0 || index > Size() {
        return Fail(IndexOutOfBounds);
      }
      ghost var s := data;
      if !IsEmpty() {
        if index == Size() {
          data := data + [value];
        } else {
          data := data[..index + 1] + data[index..];
          data := data[index := value];
        }
      } else {
        data := [value];
      }
      assert data == InsertedAt(s, index, value);
      outcome := Pass;
    }

    method Erase(index: int) returns (outcome: Outcome)
      modifies this
      ensures old(data) == [] ==> outcome == Fail(EmptyVector)
      ensures old(data) != [] && !(0 <= index < |old(data)|) ==> outcome == Fail(IndexOutOfBounds)
      ensures outcome.Pass? <==> 0 <= index < |old(data)|
      ensures outcome.Fail? ==> data == old(data)
      ensures outcome.Pass? ==> data == ErasedAt(old(data), index)
    {
      if !IsEmpty() {
        if 0 <= index < Size() {
          data := data[..index] + data[index + 1..];
          outcome := Pass;
        } else {
          outcome := Fail(IndexOutOfBounds);
        }
      } else {
        outcome := Fail(EmptyVector);
      }
    }

    method PushBack(value: T)
      modifies this
      ensures data == old(data) + [value]
      ensures Back() == Ok(value)
    {
      data := data + [value];
    }

    method PushFront(value: T)
      modifies this
      ensures data == [value] + old(data)
      ensures Front() == Ok(value)
    {
      data := [value] + data;
    }

    method PopBack() returns (outcome: Outcome)
      modifies this
      ensures outcome.Pass? <==> old(data) != []
      ensures outcome.Fail? ==> outcome.error == EmptyVector && data == old(data)
      ensures outcome.Pass? ==> data == old(data)[..|old(data)| - 1]
    {
      if !IsEmpty() {
        data := data[..Size() - 1];
        outcome := Pass;
      } else {
        outcome := Fail(EmptyVector);
      }
    }

    method PopFront() returns (outcome: Outcome)
      modifies this
      ensures outcome.Pass? <==> old(data) != []
      ensures outcome.Fail? ==> outcome.error == EmptyVector && data == old(data)
      ensures outcome.Pass? ==> data == old(data)[1..]
    {
      if !IsEmpty() {
        data := data[1..];
        outcome := Pass;
      } else {
        outcome := Fail(EmptyVector);
      }
    }

    /** Growing pads with `zero`, the element type's zero value; shrinking pops from the back. */
    method Resize(newSize: int, zero: T) returns (outcome: Outcome)
      modifies this
      ensures outcome.Fail? <==> newSize < 0
      ensures outcome.Fail? ==> outcome.error == NegativeSize && data == old(data)
      ensures outcome.Pass? ==> data == Resized(old(data), newSize, zero)
    {
      if newSize < 0 {
        return Fail(NegativeSize);
      }
      outcome := Pass;
      if newSize == Size() {
        assert data[..newSize] == data;
        return;
      } else if newSize > Size() {
        data := data + seq(newSize - |data|, _ => zero);
      } else {
        ghost var s := data;
        while Size() > newSize
          invariant newSize <= |data| <= |s| && data == s[..|data|]
          decreases |data|
        {
          ghost var k := |data|;
          assert s[..k][..k - 1] == s[..k - 1];
          var _ := PopBack();
        }
      }
    }

    method Swap(other: NVector<T>)
      modifies this, other
      ensures data == old(other.data) && other.data == old(data)
    {
      var tmp := data;
      data := other.data;
      other.data := tmp;
    }

    // -------------------------------------------------------------------------
    // Traversal and sequential search
    // -------------------------------------------------------------------------

    /** As Vector.Visit: the indices from the front up to the first that sets `break_out`. */
    method Visit(stop: T -> bool) returns (visited: seq<int>)
      ensures visited == Ascending(0, |visited|)
      ensures VisitLength(data, stop, |visited|)
    {
      visited := [];
      if IsEmpty() {
        return;
      }
      var breakOut := false;
      var idx := 0;
      while !breakOut && idx < Size()
        invariant 0 <= idx <= |data| && |visited| == idx
        invariant forall i :: 0 <= i < idx ==> visited[i] == i
        invariant forall i :: 0 <= i < idx - 1 ==> !stop(data[i])
        invariant breakOut <==> idx > 0 && stop(data[idx - 1])
      {
        visited := visited + [idx];
        breakOut := stop(data[idx]);
        idx := idx + 1;
      }
    }

    /** As Vector.VisitReverse. */
    method VisitReverse(stop: T -> bool) returns (visited: seq<int>)
      ensures |visited| <= |data| && visited == Descending(|data| - 1 - |visited|, |data| - 1)
      ensures VisitLength(Reversed(data), stop, |visited|)
    {
      visited := [];
      if IsEmpty() {
        return;
      }
      var breakOut := false;
      var idx := Size() - 1;
      while !breakOut && idx >= 0
        invariant -1 <= idx < |data| && |visited| == |data| - 1 - idx
        invariant forall i :: 0 <= i < |visited| ==> visited[i] == |data| - 1 - i
        invariant forall i :: idx + 1 < i < |data| ==> !stop(data[i])
        invariant breakOut <==> |visited| > 0 && stop(data[idx + 1])
      {
        visited := visited + [idx];
        breakOut := stop(data[idx]);
        idx := idx - 1;
      }
    }

    method ContainsValue(value: T) returns (ret: bool)
      ensures ret <==> value in data
    {
      if IsEmpty() {
        return false;
      }
      for i := 0 to |data|
        invariant value !in data[..i]
      {
        if data[i] == value {
          return true;
        }
      }
      assert data[..|data|] == data;
      return false;
    }

    method ContainsRef(r: Ref) returns (ret: bool)
      ensures ret <==> r.Slot? && 0 <= r.index < |data|
    {
      if IsEmpty() {
        return false;
      }
      for i := 0 to Size()
        invariant forall j :: 0 <= j < i ==> r != Slot(j)
      {
        if r == AtRef(i) {
          return true;
        }
      }
      return false;
    }

    /** (true, k) for the first k holding `value`; (false, -1) on any miss. */
    method OrderedSearch(value: T) returns (found: bool, index: int)
      ensures found <==> value in data
      ensures found ==> FirstMatch(data, NativeEqual, value, index)
      ensures !found ==> index == -1
    {
      if IsEmpty() {
        return false, -1;
      }
      for k := 0 to |data|
        invariant forall j :: 0 <= j < k ==> data[j] != value
      {
        if data[k] == value {
          return true, k;
        }
      }
      return false, -1;
    }

    method OrderedRefSearch(r: Ref) returns (found: bool, index: int)
      ensures found <==> r.Slot? && 0 <= r.index < |data|
      ensures found ==> index == r.index
      ensures !found ==> index == -1
    {
      if IsEmpty() {
        return false, -1;
      }
      for i := 0 to Size()
        invariant forall j :: 0 <= j < i ==> r != Slot(j)
      {
        if r == AtRef(i) {
          return true, i;
        }
      }
      return false, -1;
    }

    method OrderedSearchRef(value: T) returns (ret: Ref)
      ensures ret == Nil || ret.Slot?
      ensures ret.Slot? <==> value in data
      ensures ret.Slot? ==> FirstMatch(data, NativeEqual, value, ret.index)
    {
      if IsEmpty() {
        return Nil;
      }
      for i := 0 to Size()
        invariant forall j :: 0 <= j < i ==> data[j] != value
      {
        if At(i) == value {
          return AtRef(i);
        }
      }
      return Nil;
    }

    method OrderedRefSearchRef(r: Ref) returns (ret: Ref)
      ensures r.Slot? && 0 <= r.index < |data| ==> ret == r
      ensures !(r.Slot? && 0 <= r.index < |data|) ==> ret == Nil
    {
      if IsEmpty() {
        return Nil;
      }
      for i := 0 to Size()
        invariant forall j :: 0 <= j < i ==> r != Slot(j)
      {
        if AtRef(i) == r {
          return AtRef(i);
        }
      }
      return Nil;
    }

    // -------------------------------------------------------------------------
    // Chunked (parallel) search
    // -------------------------------------------------------------------------

    /** The chunked search for `value`, as Vector.Search but with `==`. */
    method Search(value: T, procs: nat, multiplier: int) returns (found: bool, index: int)
      requires procs >= 1
      ensures found <==> value in data
      ensures !found ==> index == -1
      ensures found ==> 0 <= index < |data| && data[index] == value
      ensures found ==> FirstHitOfChunk(Matches(data, NativeEqual, value), NumChunks(|data|, procs, multiplier), index)
      ensures found && NumChunks(|data|, procs, multiplier) == 1 ==> FirstMatch(data, NativeEqual, value, index)
    {
      found, index := false, -1;
      if IsEmpty() {
        return;
      }
      var hits := Matches(data, NativeEqual, value);
      found, index := ChunkedScan(hits, procs, multiplier);
      if found {
        assert hits[index];
      } else {
        assert forall j :: 0 <= j < |data| ==> !hits[j];
      }
    }

    method RefSearch(r: Ref, procs: nat, multiplier: int) returns (found: bool, index: int)
      requires procs >= 1
      ensures found <==> r.Slot? && 0 <= r.index < |data|
      ensures found ==> index == r.index
      ensures !found ==> index == -1
    {
      found, index := false, -1;
      if IsEmpty() {
        return;
      }
      var hits := SlotHits(|data|, r);
      found, index := ChunkedScan(hits, procs, multiplier);
    }

    method SearchRef(value: T, procs: nat, multiplier: int) returns (ret: Ref)
      requires procs >= 1
      ensures ret == Nil || ret.Slot?
      ensures ret.Slot? <==> value in data
      ensures ret.Slot? ==> 0 <= ret.index < |data| && data[ret.index] == value
      ensures ret.Slot? && NumChunks(|data|, procs, multiplier) == 1 ==>
                FirstMatch(data, NativeEqual, value, ret.index)
    {
      ret := Nil;
      if IsEmpty() {
        return;
      }
      var hits := Matches(data, NativeEqual, value);
      var found, index := ChunkedScan(hits, procs, multiplier);
      if found {
        ret := AtRef(index);
      } else {
        assert forall j :: 0 <= j < |data| ==> !hits[j];
      }
    }

    method RefSearchRef(r: Ref, procs: nat, multiplier: int) returns (ret: Ref)
      requires procs >= 1
      ensures r.Slot? && 0 <= r.index < |data| ==> ret == r
      ensures !(r.Slot? && 0 <= r.index < |data|) ==> ret == Nil
    {
      ret := Nil;
      if IsEmpty() {
        return;
      }
      var hits := SlotHits(|data|, r);
      var found, index := ChunkedScan(hits, procs, multiplier);
      if found {
        ret := AtRef(index);
      }
    }
  }

  /** Converting an NVector to a Vector and back keeps the element sequence. */
  method RoundTripThroughVector<T(==)>(v: NVector<T>) returns (w: NVector<T>)
    ensures fresh(w) && w.data == v.data
  {
    var u := v.ToVector();
    w := new NVector.FromVector(u);
  }
}
