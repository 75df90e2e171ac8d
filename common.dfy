/**
 * Definitions shared by every container of the library: the panics the Go code
 * raises (as error values), the result wrappers that carry them, the model of a
 * pointer into a contiguous container, and a few sequence helpers used in the
 * contracts.
 */
module Common {

  /** The panics of the containers, one constructor per distinct panic message. */
  datatype Error =
    | EmptyVector        // "... - empty vector" (also raised by List.Front/Back)
    | EmptyList          // "... - empty list"
    | IndexOutOfRange    // SafeAt/SafeAtRef: "index out of range"
    | IndexOutOfBounds   // Insert/Erase: "index out of bounds"
    | EmptyListIndex     // List.Insert on an empty list: "index out of bounds for empty List"
    | NegativeSize       // Resize: "negative new size"
    | NilDereference     // the runtime panic of a nil pointer dereference

  /** A query that either yields a value or panics. */
  datatype Result<T> = Ok(value: T) | Err(error: Error)

  /** A mutation that either completes or panics before changing anything. */
  datatype Outcome = Pass | Fail(error: Error)

  /**
   * A `*T` pointer as a contiguous container sees it: nil, the address of one of
   * its slots, or an address outside its backing store.
   */
  datatype Ref = Nil | Slot(index: int) | Foreign

  /** The sequence in reverse order. */
  function Reversed<T>(s: seq<T>): (r: seq<T>)
    ensures |r| == |s|
    ensures forall i :: 0 <= i < |s| ==> r[i] == s[|s| - 1 - i]
  {
    if s == [] then [] else Reversed(s[1..]) + [s[0]]
  }

  /** Reversing a sequence that grew at its back puts the new element in front. */
  lemma {:induction false} ReversedSnoc<T>(s: seq<T>, x: T)
    ensures Reversed(s + [x]) == [x] + Reversed(s)
  {
    assert |Reversed(s + [x])| == |[x] + Reversed(s)|;
    forall i | 0 <= i < |s| + 1
      ensures Reversed(s + [x])[i] == ([x] + Reversed(s))[i]
    {
    }
  }

  /** Reversing twice gives back the original sequence. */
  lemma {:induction false} ReversedInvolutive<T>(s: seq<T>)
    ensures Reversed(Reversed(s)) == s
  {
    assert |Reversed(Reversed(s))| == |s|;
    forall i | 0 <= i < |s|
      ensures Reversed(Reversed(s))[i] == s[i]
    {
    }
  }

  /** The indices lo, lo + 1, ..., hi - 1 in increasing order. */
  function Ascending(lo: int, hi: int): (r: seq<int>)
    requires lo <= hi
    ensures |r| == hi - lo
    ensures forall j :: 0 <= j < |r| ==> r[j] == lo + j
  {
    seq(hi - lo, j => lo + j)
  }

  /** The indices hi, hi - 1, ..., lo + 1 in decreasing order. */
  function Descending(lo: int, hi: int): (r: seq<int>)
    requires lo <= hi
    ensures |r| == hi - lo
    ensures forall j :: 0 <= j < |r| ==> r[j] == hi - j
  {
    seq(hi - lo, j => hi - j)
  }
}
