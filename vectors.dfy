/**
 * Vector: the general-purpose growable sequence of the library.
 *
 * The Go struct holds one slice `data`; here it is a class whose `data` field is
 * a `seq` that the mutators reassign. Elements that implement Destructible have
 * their Destruct method called when a removal path drops them: the ghost field
 * `Destroyed` logs, in call order, every element a removal path drops, so the
 * contracts can say which elements were torn down and that each was torn down
 * once. (For element types without Destruct the log records the calls that are
 * skipped.)
 *
 * A `*T` pointer to an element is a `Ref`: `AtRef(i)` is `Slot(i)`, and the
 * `Ref` searches compare pointers, that is, slots. Whether the element type
 * implements EqualityComparable is the `Capability` passed to each search.
 */
module Vectors {
  import opened Common
  import opened Comparable
  import opened Chunks
  import opened Sequences

  /**
   * For each element of `s`, whether it is Equal to `value`: there is a hit
   * exactly when `s` contains the value, and the first hit is its first match.
   */
  function Matches<T>(s: seq<T>, equal: (T, T) -> bool, value: T): (hits: seq<bool>)
    ensures |hits| == |s|
    ensures (exists j :: 0 <= j < |hits| && hits[j]) <==> Contains(s, equal, value)
    ensures forall k :: 0 <= k < |s| ==>
              (FirstMatch(s, equal, value, k) <==> hits[k] && forall j :: 0 <= j < k ==> !hits[j])
  {
    var hits := seq(|s|, j requires 0 <= j < |s| => equal(s[j], value));
    assert forall j :: 0 <= j < |s| ==> hits[j] == equal(s[j], value);
    hits
  }

  /**
   * An ordered type searched through its EqualityComparable view: the hits are
   * exactly the elements that NotEqual does not tell apart from the value.
   */
  lemma MatchesUnderEqualityOf<T(!new)>(s: seq<T>, c: Comparison<T>, value: T)
    requires Coherent(c)
    ensures forall j :: 0 <= j < |s| ==>
              (Matches(s, EqualityOf(c).equal, value)[j] <==> !c.notEqual(s[j], value))
    ensures Contains(s, EqualityOf(c).equal, value) <==> exists j :: 0 <= j < |s| && !c.notEqual(s[j], value)
  {
  }

  /**
   * For each slot of a container of `size` elements, whether `r` points at it:
   * there is a hit exactly when `r` designates one of the slots, and only there.
   */
  function SlotHits(size: nat, r: Ref): (hits: seq<bool>)
    ensures |hits| == size
    ensures (exists j :: 0 <= j < size && hits[j]) <==> r.Slot? && 0 <= r.index < size
    ensures forall j :: 0 <= j < size && hits[j] ==> r.Slot? && r.index == j
  {
    var hits := seq(size, j => r == Slot(j));
    assert r.Slot? && 0 <= r.index < size ==> hits[r.index];
    hits
  }

  /** Whether some element of `s` is Equal to `value`. */
  ghost predicate Contains<T>(s: seq<T>, equal: (T, T) -> bool, value: T) {
    exists j :: 0 <= j < |s| && equal(s[j], value)
  }

  /** `k` is the least index of `s` whose element is Equal to `value`. */
  ghost predicate FirstMatch<T>(s: seq<T>, equal: (T, T) -> bool, value: T, k: int) {
    && 0 <= k < |s|
    && equal(s[k], value)
    && forall j :: 0 <= j < k ==> !equal(s[j], value)
  }

  class Vector<T> {
    var data: seq<T>
    ghost var Destroyed: seq<T>

    /** NewVector / MakeVector: an empty vector. */
    constructor ()
      ensures data == [] && Destroyed == []
    {
      data := [];
      Destroyed := [];
    }

    /** NewVectorFromData / MakeVectorFromData: a vector holding `values`. */
    constructor FromData(values: seq<T>)
      ensures data == values && Destroyed == []
    {
      data := values;
      Destroyed := [];
    }

    /** NewVectorFromVector / MakeVectorFromVector: a vector holding the elements of `other`. */
    constructor FromVector(other: Vector<T>)
      ensures data == other.data && Destroyed == []
    {
      data := other.data;
      Destroyed := [];
    }

    // -------------------------------------------------------------------------
    // Access
    // -------------------------------------------------------------------------

    /** The unchecked accessor: the caller keeps the index in range. */
    function At(index: int): (r: T)
      reads this
      requires 0 <= index < |data|
      ensures SafeAt(index) == Ok(r)
    {
      data[index]
    }

    /** The checked accessor: an empty vector is reported before a bad index. */
    function SafeAt(index: int): (r: Result<T>)
      reads this
      ensures r.Ok? <==> 0 <= index < |data|
      ensures r.Ok? ==> r.value == data[index]
      ensures |data| == 0 ==> r == Err(EmptyVector)
      ensures |data| > 0 && !(0 <= index < |data|) ==> r == Err(IndexOutOfRange)
    {
      if |data| > 0 then
        if 0 <= index < |data| then Ok(data[index]) else Err(IndexOutOfRange)
      else Err(EmptyVector)
    }

    /** The unchecked pointer accessor. */
    function AtRef(index: int): (r: Ref)
      reads this
      requires 0 <= index < |data|
      ensures SafeAtRef(index) == Ok(r)
      ensures r.Slot? && r.index == index && data[r.index] == At(index)
    {
      Slot(index)
    }

    /** The checked pointer accessor, with the same errors as SafeAt. */
    function SafeAtRef(index: int): (r: Result<Ref>)
      reads this
      ensures r.Ok? <==> SafeAt(index).Ok?
      ensures r.Ok? ==> r.value.Slot? && r.value.index == index
      ensures r.Err? ==> r.error == SafeAt(index).error
    {
      if |data| > 0 then
        if 0 <= index < |data| then Ok(Slot(index)) else Err(IndexOutOfRange)
      else Err(EmptyVector)
    }

    function Front(): (r: Result<T>)
      reads this
      ensures r.Ok? <==> !IsEmpty()
      ensures r.Ok? ==> r == SafeAt(0)
      ensures r.Err? ==> r.error == EmptyVector
    {
      if |data| > 0 then Ok(data[0]) else Err(EmptyVector)
    }

    function FrontRef(): (r: Result<Ref>)
      reads this
      ensures r.Ok? <==> !IsEmpty()
      ensures r.Ok? ==> r == SafeAtRef(0)
      ensures r.Err? ==> r.error == EmptyVector
    {
      if |data| > 0 then Ok(Slot(0)) else Err(EmptyVector)
    }

    function Back(): (r: Result<T>)
      reads this
      ensures r.Ok? <==> !IsEmpty()
      ensures r.Ok? ==> r == SafeAt(Size() - 1)
      ensures r.Err? ==> r.error == EmptyVector
    {
      if |data| > 0 then Ok(data[|data| - 1]) else Err(EmptyVector)
    }

    function BackRef(): (r: Result<Ref>)
      reads this
      ensures r.Ok? <==> !IsEmpty()
      ensures r.Ok? ==> r == SafeAtRef(Size() - 1)
      ensures r.Err? ==> r.error == EmptyVector
    {
      if |data| > 0 then Ok(Slot(|data| - 1)) else Err(EmptyVector)
    }

    function IsEmpty(): (r: bool)
      reads this
      ensures r <==> data == []
    {
      |data| == 0
    }

    function Size(): (r: nat)
      reads this
      ensures r == 0 <==> IsEmpty()
      ensures forall i :: 0 <= i < r <==> SafeAt(i).Ok?
    {
      |data|
    }

    // -------------------------------------------------------------------------
    // Mutators
    // -------------------------------------------------------------------------

    /** Removes the last element, tearing it down. */
    method PopBack() returns (outcome: Outcome)
      modifies this
      ensures outcome.Pass? <==> old(data) != []
      ensures outcome.Fail? ==> outcome.error == EmptyVector
      ensures outcome.Fail? ==> data == old(data) && Destroyed == old(Destroyed)
      ensures outcome.Pass? ==> data == old(data)[..|old(data)| - 1]
      ensures outcome.Pass? ==> Destroyed == old(Destroyed) + [old(data)[|old(data)| - 1]]
    {
      if !IsEmpty() {
        Destroyed := Destroyed + [data[|data| - 1]];
        data := data[..|data| - 1];
        outcome := Pass;
      } else {
        outcome := Fail(EmptyVector);
      }
    }

    /** Removes the first element, tearing it down. */
    method PopFront() returns (outcome: Outcome)
      modifies this
      ensures outcome.Pass? <==> old(data) != []
      ensures outcome.Fail? ==> outcome.error == EmptyVector
      ensures outcome.Fail? ==> data == old(data) && Destroyed == old(Destroyed)
      ensures outcome.Pass? ==> data == old(data)[1..]
      ensures outcome.Pass? ==> Destroyed == old(Destroyed) + [old(data)[0]]
    {
      if !IsEmpty() {
        Destroyed := Destroyed + [data[0]];
        data := data[1..];
        outcome := Pass;
      } else {
        outcome := Fail(EmptyVector);
      }
    }

    method PushBack(value: T)
      modifies this
      ensures data == old(data) + [value]
      ensures Destroyed == old(Destroyed)
      ensures Back() == Ok(value)
    {
      data := data + [value];
    }

    method PushFront(value: T)
      modifies this
      ensures data == [value] + old(data)
      ensures Destroyed == old(Destroyed)
      ensures Front() == Ok(value)
    {
      data := [value] + data;
    }

    /** Pops from the back until the vector is empty: one teardown per element, last first. */
    method Clear()
      modifies this
      ensures data == []
      ensures Destroyed == old(Destroyed) + Reversed(old(data))
    {
      ghost var s := data;
      while !IsEmpty()
        invariant |data| <= |s| && data == s[..|data|]
        invariant Destroyed == old(Destroyed) + Reversed(s[|data|..])
        decreases |data|
      {
        ghost var k := |data|;
        assert s[k - 1..][1..] == s[k..];
        assert s[..k][..k - 1] == s[..k - 1];
        var _ := PopBack();
        assert data == s[..k - 1];
      }
      assert s[0..] == s;
    }

    /**
     * Inserts `value` before position `index`; `index == Size()` appends. An
     * index outside [0, Size()] panics with "index out of bounds".
     */
    method Insert(index: int, value: T) returns (outcome: Outcome)
      modifies this
      ensures outcome.Fail? <==> index < 0 || index > |old(data)|
      ensures outcome.Fail? ==> outcome.error == IndexOutOfBounds && data == old(data)
      ensures outcome.Pass? ==> data == InsertedAt(old(data), index, value)
      ensures Destroyed == old(Destroyed)
    {
      if index < 0 || index > Size() {
        return Fail(IndexOutOfBounds);
      }
      ghost var s := data;
      if Size() != 0 {
        if index == Size() {
          data := data + [value];
        } else {
          data := data[..index + 1] + data[index..];
          data := data[index := value];
        }
      } else {
        data := [value];
      }
      assert data == InsertedAt(s, index, value);
      outcome := Pass;
    }

    /**
     * Removes the element at `index`, tearing it down. An empty vector panics
     * with "empty vector" first; any other bad index with "index out of bounds".
     */
    method Erase(index: int) returns (outcome: Outcome)
      modifies this
      ensures old(data) == [] ==> outcome == Fail(EmptyVector)
      ensures old(data) != [] && !(0 <= index < |old(data)|) ==> outcome == Fail(IndexOutOfBounds)
      ensures outcome.Pass? <==> 0 <= index < |old(data)|
      ensures outcome.Fail? ==> data == old(data) && Destroyed == old(Destroyed)
      ensures outcome.Pass? ==> data == ErasedAt(old(data), index)
      ensures outcome.Pass? ==> Destroyed == old(Destroyed) + [old(data)[index]]
    {
      if !IsEmpty() {
        if 0 <= index < Size() {
          Destroyed := Destroyed + [data[index]];
          data := data[..index] + data[index + 1..];
          outcome := Pass;
        } else {
          outcome := Fail(IndexOutOfBounds);
        }
      } else {
        outcome := Fail(EmptyVector);
      }
    }

    /**
     * Brings the vector to `newSize` elements: growing pads with `zero` (Go's
     * zero value of the element type) and tears nothing down; shrinking pops
     * from the back, tearing down the dropped elements last first.
     */
    method Resize(newSize: int, zero: T) returns (outcome: Outcome)
      modifies this
      ensures outcome.Fail? <==> newSize < 0
      ensures outcome.Fail? ==> outcome.error == NegativeSize && data == old(data)
      ensures outcome.Fail? ==> Destroyed == old(Destroyed)
      ensures outcome.Pass? ==> data == Resized(old(data), newSize, zero)
      ensures outcome.Pass? && newSize >= |old(data)| ==> Destroyed == old(Destroyed)
      ensures outcome.Pass? && newSize < |old(data)| ==>
                Destroyed == old(Destroyed) + Reversed(old(data)[newSize..])
    {
      if newSize < 0 {
        return Fail(NegativeSize);
      }
      outcome := Pass;
      if newSize == Size() {
        assert data[..newSize] == data;
        return;
      } else if newSize > Size() {
        data := data + seq(newSize - |data|, _ => zero);
      } else {
        ghost var s := data;
        while Size() > newSize
          invariant newSize <= |data| <= |s| && data == s[..|data|]
          invariant Destroyed == old(Destroyed) + Reversed(s[|data|..])
          decreases |data|
        {
          ghost var k := |data|;
          assert s[k - 1..][1..] == s[k..];
          assert s[..k][..k - 1] == s[..k - 1];
          var _ := PopBack();
          assert data == s[..k - 1];
        }
      }
    }

    /** Exchanges the contents of the two vectors; nothing is torn down. */
    method Swap(other: Vector<T>)
      modifies this, other
      ensures data == old(other.data) && other.data == old(data)
      ensures Destroyed == old(Destroyed) && other.Destroyed == old(other.Destroyed)
    {
      var tmp := data;
      data := other.data;
      other.data := tmp;
    }

    // -------------------------------------------------------------------------
    // Traversal and sequential search
    // -------------------------------------------------------------------------

    /**
     * Calls the visitor on each element from the front until a call sets
     * `break_out`; `stop(e)` is whether the call on `e` sets it. Returns the
     * indices visited, in call order.
     */
    method Visit(stop: T -> bool) returns (visited: seq<int>)
      ensures visited == Ascending(0, |visited|)
      ensures VisitLength(data, stop, |visited|)
    {
      visited := [];
      if IsEmpty() {
        return;
      }
      var breakOut := false;
      var idx := 0;
      while !breakOut && idx < Size()
        invariant 0 <= idx <= |data| && |visited| == idx
        invariant forall i :: 0 <= i < idx ==> visited[i] == i
        invariant forall i :: 0 <= i < idx - 1 ==> !stop(data[i])
        invariant breakOut <==> idx > 0 && stop(data[idx - 1])
      {
        visited := visited + [idx];
        breakOut := stop(data[idx]);
        idx := idx + 1;
      }
    }

    /** Visit from the back to the front. */
    method VisitReverse(stop: T -> bool) returns (visited: seq<int>)
      ensures |visited| <= |data| && visited == Descending(|data| - 1 - |visited|, |data| - 1)
      ensures VisitLength(Reversed(data), stop, |visited|)
    {
      visited := [];
      if IsEmpty() {
        return;
      }
      var breakOut := false;
      var idx := Size() - 1;
      while !breakOut && idx >= 0
        invariant -1 <= idx < |data| && |visited| == |data| - 1 - idx
        invariant forall i :: 0 <= i < |visited| ==> visited[i] == |data| - 1 - i
        invariant forall i :: idx + 1 < i < |data| ==> !stop(data[i])
        invariant breakOut <==> |visited| > 0 && stop(data[idx + 1])
      {
        visited := visited + [idx];
        breakOut := stop(data[idx]);
        idx := idx - 1;
      }
    }

    /** Whether some element is Equal to `value`; false when the type has no Equal. */
    method ContainsValue(cap: Capability<T>, value: T) returns (ret: bool)
      ensures ret <==> cap.Equality? && Contains(data, cap.equal, value)
    {
      if IsEmpty() || cap.Missing? {
        return false;
      }
      ret := false;
      var breakOut := false;
      var idx := 0;
      while !breakOut && idx < Size()
        invariant 0 <= idx <= |data|
        invariant forall j :: 0 <= j < idx && !(breakOut && j == idx - 1) ==> !cap.equal(data[j], value)
        invariant ret == breakOut
        invariant breakOut ==> idx > 0 && cap.equal(data[idx - 1], value)
      {
        if cap.equal(data[idx], value) {
          ret := true;
          breakOut := true;
        }
        idx := idx + 1;
      }
    }

    /** Whether `r` points at one of the vector's slots. */
    method ContainsRef(r: Ref) returns (ret: bool)
      ensures ret <==> r.Slot? && 0 <= r.index < |data|
    {
      if IsEmpty() {
        return false;
      }
      ret := false;
      var breakOut := false;
      var idx := 0;
      while !breakOut && idx < Size()
        invariant 0 <= idx <= |data|
        invariant forall j :: 0 <= j < idx && !(breakOut && j == idx - 1) ==> r != Slot(j)
        invariant ret == breakOut
        invariant breakOut ==> idx > 0 && r == Slot(idx - 1)
      {
        if AtRef(idx) == r {
          ret := true;
          breakOut := true;
        }
        idx := idx + 1;
      }
    }

    /**
     * The index of the first element Equal to `value`. (false, -1) when the
     * vector is empty or the type has no Equal; on a miss the counter has been
     * bumped past every element, so a miss reports (false, Size()).
     */
    method OrderedSearch(cap: Capability<T>, value: T) returns (found: bool, index: int)
      ensures data == [] || cap.Missing? ==> !found && index == -1
      ensures found <==> cap.Equality? && Contains(data, cap.equal, value)
      ensures found ==> FirstMatch(data, cap.equal, value, index)
      ensures !found && data != [] && cap.Equality? ==> index == |data|
    {
      if IsEmpty() || cap.Missing? {
        return false, -1;
      }
      found := false;
      index := 0;
      var breakOut := false;
      var idx := 0;
      while !breakOut && idx < Size()
        invariant 0 <= idx <= |data|
        invariant found == breakOut
        invariant !found ==> index == idx
        invariant found ==> index == idx - 1
        invariant forall j :: 0 <= j < index && j < idx ==> !cap.equal(data[j], value)
        invariant found ==> cap.equal(data[index], value)
      {
        if cap.equal(data[idx], value) {
          found := true;
          breakOut := true;
        } else {
          index := index + 1;
        }
        idx := idx + 1;
      }
    }

    /** The index of the slot `r` points at; (false, Size()) when it points at none. */
    method OrderedRefSearch(r: Ref) returns (found: bool, index: int)
      ensures data == [] ==> !found && index == -1
      ensures found <==> r.Slot? && 0 <= r.index < |data|
      ensures found ==> index == r.index
      ensures !found && data != [] ==> index == |data|
    {
      if IsEmpty() {
        return false, -1;
      }
      found := false;
      index := 0;
      var breakOut := false;
      var idx := 0;
      while !breakOut && idx < Size()
        invariant 0 <= idx <= |data|
        invariant found == breakOut
        invariant !found ==> index == idx
        invariant found ==> index == idx - 1 && r == Slot(index)
        invariant forall j :: 0 <= j < index && j < idx ==> r != Slot(j)
      {
        if AtRef(idx) == r {
          found := true;
          breakOut := true;
        } else {
          index := index + 1;
        }
        idx := idx + 1;
      }
    }

    /** A pointer to the first element Equal to `value`, or nil. */
    method OrderedSearchRef(cap: Capability<T>, value: T) returns (ret: Ref)
      ensures ret == Nil || ret.Slot?
      ensures ret.Slot? <==> cap.Equality? && Contains(data, cap.equal, value)
      ensures ret.Slot? ==> FirstMatch(data, cap.equal, value, ret.index)
    {
      if IsEmpty() || cap.Missing? {
        return Nil;
      }
      ret := Nil;
      var breakOut := false;
      var idx := 0;
      while !breakOut && idx < Size()
        invariant 0 <= idx <= |data|
        invariant ret.Slot? == breakOut && (ret == Nil || ret.Slot?)
        invariant breakOut ==> idx > 0 && ret == Slot(idx - 1) && cap.equal(data[idx - 1], value)
        invariant forall j :: 0 <= j < idx && !(breakOut && j == idx - 1) ==> !cap.equal(data[j], value)
      {
        if cap.equal(data[idx], value) {
          ret := AtRef(idx);
          breakOut := true;
        }
        idx := idx + 1;
      }
    }

    /** `r` itself when it points at one of the vector's slots, otherwise nil. */
    method OrderedRefSearchRef(r: Ref) returns (ret: Ref)
      ensures r.Slot? && 0 <= r.index < |data| ==> ret == r
      ensures !(r.Slot? && 0 <= r.index < |data|) ==> ret == Nil
    {
      if IsEmpty() {
        return Nil;
      }
      ret := Nil;
      var breakOut := false;
      var idx := 0;
      while !breakOut && idx < Size()
        invariant 0 <= idx <= |data|
        invariant breakOut <==> ret != Nil
        invariant breakOut ==> idx > 0 && ret == r && r == Slot(idx - 1)
        invariant forall j :: 0 <= j < idx && !breakOut ==> r != Slot(j)
      {
        if AtRef(idx) == r {
          ret := AtRef(idx);
          breakOut := true;
        }
        idx := idx + 1;
      }
    }

    // -------------------------------------------------------------------------
    // Chunked (parallel) search
    // -------------------------------------------------------------------------

    /**
     * The index of an element Equal to `value`, found by `procs` workers each
     * scanning one chunk. `found` is exact; the index is a match with no
     * earlier match in its own chunk, and the first match overall when the
     * vector is too small to be split. (false, -1) when the vector is empty,
     * the type has no Equal, or nothing matches.
     */
    method Search(cap: Capability<T>, value: T, procs: nat, multiplier: int)
      returns (found: bool, index: int)
      requires procs >= 1
      ensures found <==> cap.Equality? && Contains(data, cap.equal, value)
      ensures !found ==> index == -1
      ensures found ==> cap.Equality? && 0 <= index < |data| && cap.equal(data[index], value)
      ensures found ==> FirstHitOfChunk(Matches(data, cap.equal, value), NumChunks(|data|, procs, multiplier), index)
      ensures found && NumChunks(|data|, procs, multiplier) == 1 ==> FirstMatch(data, cap.equal, value, index)
    {
      found, index := false, -1;
      if IsEmpty() || cap.Missing? {
        return;
      }
      var hits := Matches(data, cap.equal, value);
      found, index := ChunkedScan(hits, procs, multiplier);
    }

    /** The chunked search for the slot `r` points at. */
    method RefSearch(r: Ref, procs: nat, multiplier: int) returns (found: bool, index: int)
      requires procs >= 1
      ensures found <==> r.Slot? && 0 <= r.index < |data|
      ensures found ==> index == r.index
      ensures !found ==> index == -1
    {
      found, index := false, -1;
      if IsEmpty() {
        return;
      }
      var hits := SlotHits(|data|, r);
      found, index := ChunkedScan(hits, procs, multiplier);
    }

    /** The chunked search returning a pointer to the match, or nil. */
    method SearchRef(cap: Capability<T>, value: T, procs: nat, multiplier: int) returns (ret: Ref)
      requires procs >= 1
      ensures ret == Nil || ret.Slot?
      ensures ret.Slot? <==> cap.Equality? && Contains(data, cap.equal, value)
      ensures ret.Slot? ==> cap.Equality? && 0 <= ret.index < |data| && cap.equal(data[ret.index], value)
      ensures ret.Slot? && NumChunks(|data|, procs, multiplier) == 1 ==>
                FirstMatch(data, cap.equal, value, ret.index)
    {
      ret := Nil;
      if IsEmpty() || cap.Missing? {
        return;
      }
      var hits := Matches(data, cap.equal, value);
      var found, index := ChunkedScan(hits, procs, multiplier);
      if found {
        ret := AtRef(index);
      }
    }

    /** The chunked search returning `r` when it points into the vector, or nil. */
    method RefSearchRef(r: Ref, procs: nat, multiplier: int) returns (ret: Ref)
      requires procs >= 1
      ensures r.Slot? && 0 <= r.index < |data| ==> ret == r
      ensures !(r.Slot? && 0 <= r.index < |data|) ==> ret == Nil
    {
      ret := Nil;
      if IsEmpty() {
        return;
      }
      var hits := SlotHits(|data|, r);
      var found, index := ChunkedScan(hits, procs, multiplier);
      if found {
        ret := AtRef(index);
      }
    }
  }

  // ---------------------------------------------------------------------------
  // Properties relating several operations
  // ---------------------------------------------------------------------------

  /** PushBack followed by PopBack restores the vector and tears down the pushed value. */
  method PushBackThenPopBack<T>(v: Vector<T>, x: T)
    modifies v
    ensures v.data == old(v.data)
    ensures v.Destroyed == old(v.Destroyed) + [x]
  {
    v.PushBack(x);
    var outcome := v.PopBack();
    assert outcome.Pass?;
  }

  /** Insert followed by Erase at the same index restores the vector. */
  method InsertThenErase<T>(v: Vector<T>, index: int, x: T)
    requires 0 <= index <= |v.data|
    modifies v
    ensures v.data == old(v.data)
    ensures v.Destroyed == old(v.Destroyed) + [x]
  {
    var o1 := v.Insert(index, x);
    var o2 := v.Erase(index);
    EraseUndoesInsert(old(v.data), index, x);
  }

  /** Clear is Resize(0): the same final contents and the same teardowns. */
  method ClearIsResizeZero<T>(v: Vector<T>, w: Vector<T>, zero: T)
    requires v != w && v.data == w.data && v.Destroyed == w.Destroyed
    modifies v, w
    ensures v.data == w.data == []
    ensures v.Destroyed == w.Destroyed
  {
    v.Clear();
    var outcome := w.Resize(0, zero);
    assert old(w.data)[0..] == old(w.data);
  }
}
