/**
 * SortableVector: a Vector of an ordered element type with sorting and a
 * sortedness test.
 *
 * Go delegates to sort.Slice, sort.SliceStable and sort.SliceIsSorted. The
 * sorted order is specified here through a stable insertion sort `SortBy`
 * (a reference definition, not Go's algorithm), whose result is proved sorted,
 * a permutation of its input and stable. `less` is the element type's `<`, or
 * the user's function for the *Func variants.
 */
module Sorting {
  import opened Common
  import opened Comparable
  import opened Vectors

  /**
   * Go's sortedness test: scanning from the back, no element is less than the
   * one before it. Vacuously true for fewer than two elements.
   */
  function IsSortedBy<T>(s: seq<T>, less: (T, T) -> bool): (r: bool)
    ensures r <==> forall i :: 0 < i < |s| ==> !less(s[i], s[i - 1])
    ensures |s| <= 1 ==> r
  {
    if |s| <= 1 then true
    else !less(s[|s| - 1], s[|s| - 2]) && IsSortedBy(s[..|s| - 1], less)
  }

  /** Under a strict weak order, the adjacent test means no element is less than any earlier one. */
  lemma {:induction false} SortedPairwise<T(!new)>(s: seq<T>, less: (T, T) -> bool, i: int, j: int)
    requires StrictWeakOrder(less) && IsSortedBy(s, less)
    requires 0 <= i < j < |s|
    ensures !less(s[j], s[i])
    decreases j - i
  {
    if j > i + 1 {
      SortedPairwise(s, less, i, j - 1);
      assert !less(s[j], s[j - 1]);
    }
  }

  /** `a` and `b` are equivalent: neither is less than the other. */
  predicate Equivalent<T>(a: T, b: T, less: (T, T) -> bool) {
    !less(a, b) && !less(b, a)
  }

  /** The elements of `s` equivalent to `key`, in their order in `s`. */
  function EquivClass<T>(s: seq<T>, key: T, less: (T, T) -> bool): (r: seq<T>)
    ensures |r| <= |s|
    ensures forall e :: e in r ==> e in s && Equivalent(e, key, less)
  {
    if s == [] then []
    else (if Equivalent(s[0], key, less) then [s[0]] else []) + EquivClass(s[1..], key, less)
  }

  lemma EquivClassCons<T>(a: T, u: seq<T>, key: T, less: (T, T) -> bool)
    ensures EquivClass([a] + u, key, less)
            == (if Equivalent(a, key, less) then [a] else []) + EquivClass(u, key, less)
  {
    assert ([a] + u)[1..] == u;
  }

  /** `x` placed before the first element of `t` that is not less than it. */
  function InsertSorted<T>(x: T, t: seq<T>, less: (T, T) -> bool): (r: seq<T>)
    ensures |r| == |t| + 1
    ensures r[0] == x || (t != [] && r[0] == t[0])
  {
    if t == [] then [x]
    else if less(t[0], x) then [t[0]] + InsertSorted(x, t[1..], less)
    else [x] + t
  }

  /** The stable insertion sort that specifies the sorted order. */
  function SortBy<T>(s: seq<T>, less: (T, T) -> bool): (r: seq<T>)
    ensures |r| == |s|
  {
    if s == [] then [] else InsertSorted(s[0], SortBy(s[1..], less), less)
  }

  lemma {:induction false} InsertSortedPermutes<T>(x: T, t: seq<T>, less: (T, T) -> bool)
    ensures multiset(InsertSorted(x, t, less)) == multiset(t) + multiset{x}
  {
    if t != [] && less(t[0], x) {
      InsertSortedPermutes(x, t[1..], less);
      assert t == [t[0]] + t[1..];
    }
  }

  lemma {:induction false} InsertSortedKeepsSorted<T(!new)>(x: T, t: seq<T>, less: (T, T) -> bool)
    requires StrictWeakOrder(less) && IsSortedBy(t, less)
    ensures IsSortedBy(InsertSorted(x, t, less), less)
  {
    if t != [] && less(t[0], x) {
      var rest := InsertSorted(x, t[1..], less);
      assert IsSortedBy(t[1..], less) by {
        forall i | 0 < i < |t[1..]| ensures !less(t[1..][i], t[1..][i - 1]) {
          assert t[1..][i] == t[i + 1];
        }
      }
      InsertSortedKeepsSorted(x, t[1..], less);
      var r := [t[0]] + rest;
      forall i | 0 < i < |r| ensures !less(r[i], r[i - 1]) {
        if i == 1 {
          if rest[0] == x {
            assert !less(x, t[0]);
          } else {
            assert rest[0] == t[1];
          }
        } else {
          assert r[i] == rest[i - 1] && r[i - 1] == rest[i - 2];
        }
      }
    }
  }

  lemma {:induction false} InsertSortedStable<T(!new)>(x: T, t: seq<T>, key: T, less: (T, T) -> bool)
    requires StrictWeakOrder(less)
    ensures EquivClass(InsertSorted(x, t, less), key, less) == EquivClass([x] + t, key, less)
  {
    if t != [] && less(t[0], x) {
      var rest := InsertSorted(x, t[1..], less);
      InsertSortedStable(x, t[1..], key, less);
      NotBothEquivalent(t[0], x, key, less);
      PassesUnequivalent(t[0], x, t[1..], key, less);
      EquivClassCons(t[0], rest, key, less);
      EquivClassCons(t[0], [x] + t[1..], key, less);
      assert [x] + t == [x] + ([t[0]] + t[1..]);
    }
  }

  /** Two adjacent elements not both equivalent to `key` can trade places without changing its class. */
  lemma PassesUnequivalent<T>(a: T, b: T, u: seq<T>, key: T, less: (T, T) -> bool)
    requires !(Equivalent(a, key, less) && Equivalent(b, key, less))
    ensures EquivClass([a] + ([b] + u), key, less) == EquivClass([b] + ([a] + u), key, less)
  {
    EquivClassCons(a, [b] + u, key, less);
    EquivClassCons(b, u, key, less);
    EquivClassCons(b, [a] + u, key, less);
    EquivClassCons(a, u, key, less);
  }

  /** Two elements one of which is less than the other are not both equivalent to the same key. */
  lemma NotBothEquivalent<T(!new)>(a: T, b: T, key: T, less: (T, T) -> bool)
    requires StrictWeakOrder(less) && less(a, b)
    ensures !(Equivalent(a, key, less) && Equivalent(b, key, less))
  {
    if Equivalent(a, key, less) && Equivalent(b, key, less) {
      assert false;
    }
  }

  /** The reference sort yields a sorted permutation of its input that keeps equivalent elements in order. */
  lemma {:induction false} SortByCorrect<T(!new)>(s: seq<T>, less: (T, T) -> bool)
    requires StrictWeakOrder(less)
    ensures IsSortedBy(SortBy(s, less), less)
    ensures multiset(SortBy(s, less)) == multiset(s)
    ensures forall key :: EquivClass(SortBy(s, less), key, less) == EquivClass(s, key, less)
  {
    if s != [] {
      var t := SortBy(s[1..], less);
      SortByCorrect(s[1..], less);
      InsertSortedKeepsSorted(s[0], t, less);
      InsertSortedPermutes(s[0], t, less);
      assert s == [s[0]] + s[1..];
      forall key ensures EquivClass(SortBy(s, less), key, less) == EquivClass(s, key, less) {
        SortByStableStep(s, key, less);
      }
    }
  }

  /** Inserting the head into the sorted tail keeps the class of `key` as in `s`, if sorting the tail did. */
  lemma SortByStableStep<T(!new)>(s: seq<T>, key: T, less: (T, T) -> bool)
    requires StrictWeakOrder(less) && s != []
    requires EquivClass(SortBy(s[1..], less), key, less) == EquivClass(s[1..], key, less)
    ensures EquivClass(SortBy(s, less), key, less) == EquivClass(s, key, less)
  {
    var t := SortBy(s[1..], less);
    InsertSortedStable(s[0], t, key, less);
    EquivClassCons(s[0], t, key, less);
    EquivClassCons(s[0], s[1..], key, less);
    assert s == [s[0]] + s[1..];
  }

  /** Sorting integers with `>` as the less function puts them in non-increasing order. */
  lemma GreaterSortsDescending(s: seq<int>, i: int, j: int)
    requires IsSortedBy(s, IntGreaterThan)
    requires 0 <= i < j < |s|
    ensures s[i] >= s[j]
  {
    IntOrdersAreTotal();
    SortedPairwise(s, IntGreaterThan, i, j);
  }

  /** Go's built-in `copy(dst, src)`: overwrites the first min(|dst|, |src|) elements of dst. */
  function GoCopy<T>(dst: seq<T>, src: seq<T>): (r: seq<T>)
    ensures |r| == |dst|
    ensures forall i :: 0 <= i < |dst| && i < |src| ==> r[i] == src[i]
    ensures forall i :: |src| <= i < |dst| ==> r[i] == dst[i]
  {
    if |dst| <= |src| then src[..|dst|] else src + dst[|src|..]
  }

  class SortableVector<T(!new)> {
    /** The embedded Vector. */
    const vec: Vector<T>
    /** The element type's `<`. */
    const less: (T, T) -> bool

    /** NewSortableVector / MakeSortableVector. */
    constructor (less: (T, T) -> bool)
      ensures fresh(vec) && vec.data == [] && vec.Destroyed == []
      ensures this.less == less
    {
      vec := new Vector();
      this.less := less;
    }

    /** NewSortableVectorFromData / MakeSortableVectorFromData. */
    constructor FromData(values: seq<T>, less: (T, T) -> bool)
      ensures fresh(vec) && vec.data == values && vec.Destroyed == []
      ensures this.less == less
    {
      vec := new Vector.FromData(values);
      this.less := less;
    }

    /**
     * NewSortableVectorFromVector / MakeSortableVectorFromVector as written:
     * the elements are copied into the new vector's empty slice, so nothing is
     * copied and the result is empty whatever `other` holds.
     */
    constructor FromSortableVectorAsWritten(other: SortableVector<T>)
      ensures fresh(vec) && vec.data == [] && vec.Destroyed == []
      ensures less == other.less
    {
      vec := new Vector();
      less := other.less;
      new;
      vec.data := GoCopy(vec.data, other.vec.data);
    }

    /**
     * The same constructors as evidently intended: the destination is first
     * made as long as `other` (filled with the zero value `zero`), so the copy
     * takes every element.
     */
    constructor FromSortableVector(other: SortableVector<T>, zero: T)
      ensures fresh(vec) && vec.data == other.vec.data && vec.Destroyed == []
      ensures less == other.less
    {
      var src := other.vec.data;
      vec := new Vector.FromData(seq(|src|, _ => zero));
      less := other.less;
      new;
      vec.data := GoCopy(vec.data, src);
    }

    /** Sorts by the element type's `<`: a sorted permutation of the old contents. */
    method Sort()
      requires StrictWeakOrder(less)
      modifies vec
      ensures IsSortedBy(vec.data, less)
      ensures multiset(vec.data) == multiset(old(vec.data))
      ensures vec.Destroyed == old(vec.Destroyed)
    {
      SortByCorrect(vec.data, less);
      vec.data := SortBy(vec.data, less);
    }

    /** Sorts by `<`, keeping equivalent elements in their old relative order. */
    method StableSort()
      requires StrictWeakOrder(less)
      modifies vec
      ensures IsSortedBy(vec.data, less)
      ensures multiset(vec.data) == multiset(old(vec.data))
      ensures forall key :: EquivClass(vec.data, key, less) == EquivClass(old(vec.data), key, less)
      ensures vec.Destroyed == old(vec.Destroyed)
    {
      SortByCorrect(vec.data, less);
      vec.data := SortBy(vec.data, less);
    }

    /** Sorts by the caller's less function `f`. */
    method SortFunc(f: (T, T) -> bool)
      requires StrictWeakOrder(f)
      modifies vec
      ensures IsSortedBy(vec.data, f)
      ensures multiset(vec.data) == multiset(old(vec.data))
      ensures vec.Destroyed == old(vec.Destroyed)
    {
      SortByCorrect(vec.data, f);
      vec.data := SortBy(vec.data, f);
    }

    /** Stably sorts by the caller's less function `f`. */
    method StableSortFunc(f: (T, T) -> bool)
      requires StrictWeakOrder(f)
      modifies vec
      ensures IsSortedBy(vec.data, f)
      ensures multiset(vec.data) == multiset(old(vec.data))
      ensures forall key :: EquivClass(vec.data, key, f) == EquivClass(old(vec.data), key, f)
      ensures vec.Destroyed == old(vec.Destroyed)
    {
      SortByCorrect(vec.data, f);
      vec.data := SortBy(vec.data, f);
    }

    /** Whether the contents are sorted by `<`; after Sort or StableSort they are. */
    function IsSorted(): (r: bool)
      reads this, vec
      ensures r <==> forall i :: 0 < i < |vec.data| ==> !less(vec.data[i], vec.data[i - 1])
    {
      IsSortedBy(vec.data, less)
    }

    /** Whether the contents are sorted by `f`. */
    function IsSortedFunc(f: (T, T) -> bool): (r: bool)
      reads this, vec
      ensures r <==> forall i :: 0 < i < |vec.data| ==> !f(vec.data[i], vec.data[i - 1])
    {
      IsSortedBy(vec.data, f)
    }
  }

  /** The as-written copy constructor loses every element of a non-empty source. */
  lemma CopyIntoEmptyLosesElements()
    ensures GoCopy([], [1, 2, 3]) == []
    ensures GoCopy([0, 0, 0], [1, 2, 3]) == [1, 2, 3]
  {
  }
}
