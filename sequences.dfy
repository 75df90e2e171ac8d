/**
 * The sequence surgery the containers perform on their element sequence,
 * written once as functions so that every container's mutators can be specified
 * by them, together with the round trips that relate them.
 */
module Sequences {

  /** `s` with `x` inserted at position `i`: later elements move one place back. */
  function InsertedAt<T>(s: seq<T>, i: int, x: T): (r: seq<T>)
    requires 0 <= i <= |s|
    ensures |r| == |s| + 1
    ensures r[i] == x
    ensures forall j :: 0 <= j < i ==> r[j] == s[j]
    ensures forall j :: i < j < |r| ==> r[j] == s[j - 1]
  {
    s[..i] + [x] + s[i..]
  }

  /** `s` without its element at position `i`: later elements move one place forward. */
  function ErasedAt<T>(s: seq<T>, i: int): (r: seq<T>)
    requires 0 <= i < |s|
    ensures |r| == |s| - 1
    ensures forall j :: 0 <= j < i ==> r[j] == s[j]
    ensures forall j :: i <= j < |r| ==> r[j] == s[j + 1]
  {
    s[..i] + s[i + 1..]
  }

  /**
   * `s` brought to length `n`: truncated when it is longer, padded with `zero`
   * (the element type's zero value) when it is shorter.
   */
  function Resized<T>(s: seq<T>, n: nat, zero: T): (r: seq<T>)
    ensures |r| == n
    ensures forall j :: 0 <= j < n && j < |s| ==> r[j] == s[j]
    ensures forall j :: |s| <= j < n ==> r[j] == zero
  {
    if n <= |s| then s[..n] else s + seq(n - |s|, _ => zero)
  }

  /** Erasing what was just inserted gives back the original sequence. */
  lemma {:induction false} EraseUndoesInsert<T>(s: seq<T>, i: int, x: T)
    requires 0 <= i <= |s|
    ensures ErasedAt(InsertedAt(s, i, x), i) == s
  {
    var r := ErasedAt(InsertedAt(s, i, x), i);
    assert |r| == |s|;
    forall j | 0 <= j < |s| ensures r[j] == s[j] {
      if j >= i {
        assert r[j] == InsertedAt(s, i, x)[j + 1];
      }
    }
  }

  /** Re-inserting an erased element at its old position gives back the original sequence. */
  lemma {:induction false} InsertUndoesErase<T>(s: seq<T>, i: int)
    requires 0 <= i < |s|
    ensures InsertedAt(ErasedAt(s, i), i, s[i]) == s
  {
    var r := InsertedAt(ErasedAt(s, i), i, s[i]);
    assert |r| == |s|;
    forall j | 0 <= j < |s| ensures r[j] == s[j] {
      if j > i {
        assert r[j] == ErasedAt(s, i)[j - 1];
      }
    }
  }

  /** Inserting at the ends is pushing at the ends. */
  lemma InsertAtEnds<T>(s: seq<T>, x: T)
    ensures InsertedAt(s, 0, x) == [x] + s
    ensures InsertedAt(s, |s|, x) == s + [x]
  {
    assert s[..0] == [] && s[0..] == s;
    assert s[..|s|] == s && s[|s|..] == [];
  }

  /** Erasing at the ends is popping at the ends. */
  lemma EraseAtEnds<T>(s: seq<T>)
    requires |s| > 0
    ensures ErasedAt(s, 0) == s[1..]
    ensures ErasedAt(s, |s| - 1) == s[..|s| - 1]
  {
    assert s[..0] == [];
    assert s[|s|..] == [];
  }

  /** Shrinking then growing back to the old length keeps the kept prefix and zeroes the rest. */
  lemma {:induction false} ResizeShrinkGrow<T>(s: seq<T>, n: nat, zero: T)
    requires n <= |s|
    ensures Resized(Resized(s, n, zero), |s|, zero) == s[..n] + seq(|s| - n, _ => zero)
  {
  }

  /** Resizing to the current length changes nothing; growing then shrinking back is the identity. */
  lemma {:induction false} ResizeGrowShrink<T>(s: seq<T>, n: nat, zero: T)
    requires |s| <= n
    ensures Resized(s, |s|, zero) == s
    ensures Resized(Resized(s, n, zero), |s|, zero) == s
  {
    assert s[..|s|] == s;
    var g := Resized(s, n, zero);
    assert g[..|s|] == s;
  }

  /**
   * An early-exit visit over `s` made exactly `k` calls: the visitor sets
   * `break_out` (`stop` holds) on none of the first k - 1 elements, and the walk
   * ends early only after an element on which it does.
   */
  ghost predicate VisitLength<T>(s: seq<T>, stop: T -> bool, k: int) {
    && 0 <= k <= |s|
    && (forall i :: 0 <= i < k - 1 ==> !stop(s[i]))
    && (k < |s| ==> k > 0 && stop(s[k - 1]))
  }
}
