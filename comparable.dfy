/**
 * The element capabilities of the library: the EqualityComparable and
 * Comparable interfaces, and the wrapper types (Int ... UintPtr, Byte, Rune,
 * String) that implement them with their native operators.
 *
 * Every integer wrapper (Int, Int8 ... Int64, Uint ... Uint64, UintPtr, Byte,
 * Rune) implements its six methods as the same single comparison of two values
 * of one integer type; comparisons never wrap around, so one set of functions on
 * `int` stands for all of them. A Go string is an arbitrary sequence of bytes,
 * valid UTF-8 or not, and String compares it byte-wise lexicographically.
 */
module Comparable {

  /**
   * Whether an element type implements EqualityComparable, and if so its
   * `Equal` method: `equal(e, v)` is `e.Equal(v)` for a stored element `e`.
   */
  datatype Capability<!T> = Missing | Equality(equal: (T, T) -> bool)

  /** The six methods of the Comparable interface of one element type. */
  datatype Comparison<!T> = Comparison(
    equal: (T, T) -> bool,
    notEqual: (T, T) -> bool,
    lesserThan: (T, T) -> bool,
    greaterThan: (T, T) -> bool,
    lesserThanOrEqual: (T, T) -> bool,
    greaterThanOrEqual: (T, T) -> bool)

  /**
   * Comparable embeds EqualityComparable: an ordered type is also an
   * equality-comparable one, with the same Equal.
   */
  function EqualityOf<T>(c: Comparison<T>): (cap: Capability<T>)
    ensures cap.Equality?
    ensures cap.equal == c.equal
  {
    Equality(c.equal)
  }

  /** The relations between the six methods that every wrapper type satisfies. */
  ghost predicate Coherent<T(!new)>(c: Comparison<T>) {
    && (forall x, y :: c.notEqual(x, y) == !c.equal(x, y))
    && (forall x, y :: c.lesserThanOrEqual(x, y) == (c.lesserThan(x, y) || c.equal(x, y)))
    && (forall x, y :: c.greaterThan(x, y) == !c.lesserThanOrEqual(x, y))
    && (forall x, y :: c.greaterThanOrEqual(x, y) == !c.lesserThan(x, y))
  }

  // ---------------------------------------------------------------------------
  // Orders
  // ---------------------------------------------------------------------------

  /**
   * A strict weak ordering, which is what Go's sort package demands of a less
   * function: irreflexive, transitive, and "neither less" is transitive too.
   */
  ghost predicate StrictWeakOrder<T(!new)>(less: (T, T) -> bool) {
    && (forall x :: !less(x, x))
    && (forall x, y, z :: less(x, y) && less(y, z) ==> less(x, z))
    && (forall x, y, z :: !less(x, y) && !less(y, z) ==> !less(x, z))
  }

  /** A strict weak ordering in which distinct values are always comparable. */
  ghost predicate StrictTotalOrder<T(!new)>(less: (T, T) -> bool) {
    && StrictWeakOrder(less)
    && (forall x, y :: x != y ==> less(x, y) || less(y, x))
  }

  // ---------------------------------------------------------------------------
  // Integer wrappers
  // ---------------------------------------------------------------------------

  function IntEqual(i: int, other: int): bool { i == other }
  function IntNotEqual(i: int, other: int): bool { i != other }
  function IntLesserThan(i: int, other: int): bool { i < other }
  function IntGreaterThan(i: int, other: int): bool { i > other }
  function IntLesserThanOrEqual(i: int, other: int): bool { i <= other }
  function IntGreaterThanOrEqual(i: int, other: int): bool { i >= other }

  /** The Comparable methods of every integer wrapper type. */
  function IntComparison(): Comparison<int> {
    Comparison(IntEqual, IntNotEqual, IntLesserThan, IntGreaterThan,
               IntLesserThanOrEqual, IntGreaterThanOrEqual)
  }

  lemma IntComparisonCoherent()
    ensures Coherent(IntComparison())
  {
  }

  lemma IntOrdersAreTotal()
    ensures StrictTotalOrder(IntLesserThan)
    ensures StrictTotalOrder(IntGreaterThan)
  {
  }

  // ---------------------------------------------------------------------------
  // String wrapper
  // ---------------------------------------------------------------------------

  /** A byte, as Go's `byte` (`uint8`). */
  newtype Byte = x: int | 0 <= x < 256

  /** A Go string: any sequence of bytes, not necessarily valid UTF-8. */
  type GoString = seq<Byte>

  /** Go's `<` on strings: byte-wise lexicographic, a proper prefix comes first. */
  function StringLesserThan(s: GoString, other: GoString): bool {
    if s == [] then other != []
    else if other == [] then false
    else if s[0] != other[0] then s[0] < other[0]
    else StringLesserThan(s[1..], other[1..])
  }

  function StringEqual(s: GoString, other: GoString): bool { s == other }
  function StringNotEqual(s: GoString, other: GoString): bool { s != other }
  function StringGreaterThan(s: GoString, other: GoString): bool { StringLesserThan(other, s) }
  function StringLesserThanOrEqual(s: GoString, other: GoString): bool { StringLesserThan(s, other) || s == other }
  function StringGreaterThanOrEqual(s: GoString, other: GoString): bool { StringLesserThan(other, s) || s == other }

  /** The Comparable methods of the String wrapper type. */
  function StringComparison(): Comparison<GoString> {
    Comparison(StringEqual, StringNotEqual, StringLesserThan, StringGreaterThan,
               StringLesserThanOrEqual, StringGreaterThanOrEqual)
  }

  /** Exactly one of s < t, s == t and t < s holds. */
  lemma {:induction false} StringTrichotomy(s: GoString, t: GoString)
    ensures StringLesserThan(s, t) || s == t || StringLesserThan(t, s)
    ensures !(StringLesserThan(s, t) && StringLesserThan(t, s))
    ensures StringLesserThan(s, t) || StringLesserThan(t, s) ==> s != t
  {
    if s != [] && t != [] && s[0] == t[0] {
      StringTrichotomy(s[1..], t[1..]);
      if s[1..] == t[1..] {
        assert s == [s[0]] + s[1..] && t == [t[0]] + t[1..];
      }
    }
  }

  lemma {:induction false} StringLesserThanTransitive(s: GoString, t: GoString, u: GoString)
    requires StringLesserThan(s, t) && StringLesserThan(t, u)
    ensures StringLesserThan(s, u)
  {
    if s != [] && t != [] && u != [] && s[0] == t[0] && t[0] == u[0] {
      StringLesserThanTransitive(s[1..], t[1..], u[1..]);
    }
  }

  /** String's six methods relate to each other as they do for integers. */
  lemma StringComparisonCoherent()
    ensures Coherent(StringComparison())
  {
    var c := StringComparison();
    forall s, t ensures c.greaterThan(s, t) == !c.lesserThanOrEqual(s, t) {
      StringTrichotomy(s, t);
    }
  }

  /** String's `<` is a strict total order, so String vectors can be sorted. */
  lemma StringLesserThanIsTotal()
    ensures StrictTotalOrder(StringLesserThan)
  {
    forall s ensures !StringLesserThan(s, s) {
      StringTrichotomy(s, s);
    }
    forall s, t, u | StringLesserThan(s, t) && StringLesserThan(t, u)
      ensures StringLesserThan(s, u)
    {
      StringLesserThanTransitive(s, t, u);
    }
    forall s, t, u | !StringLesserThan(s, t) && !StringLesserThan(t, u)
      ensures !StringLesserThan(s, u)
    {
      StringTrichotomy(s, t);
      StringTrichotomy(t, u);
      StringTrichotomy(s, u);
      if StringLesserThan(s, u) {
        if s != t {
          StringLesserThanTransitive(t, s, u);
        }
      }
    }
    forall s, t | s != t ensures StringLesserThan(s, t) || StringLesserThan(t, s) {
      StringTrichotomy(s, t);
    }
  }
}
