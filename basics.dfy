/** Small value types and sequence helpers shared by the three screens. */
module Basics {

  /** Swift's `Optional`. */
  datatype Option<+T> = None | Some(value: T)

  /** A value or the error a throwing Swift function raised instead. */
  datatype Result<+T, +E> = Success(value: T) | Failure(error: E)

  /** The outcome of a throwing Swift function that returns nothing. */
  datatype Outcome<+E> = Pass | Fail(error: E)

  /** No element occurs twice (the iteration order of a Swift `Set` has this property). */
  predicate Distinct<T(==)>(s: seq<T>) {
    forall i, j :: 0 <= i < j < |s| ==> s[i] != s[j]
  }

  /** The last element, as `Array.last` returns it for a non-empty array. */
  function Last<T>(s: seq<T>): (r: T)
    requires s != []
  {
    s[|s| - 1]
  }

  /** All but the last element, what `popLast` leaves behind. */
  function DropLast<T>(s: seq<T>): (r: seq<T>)
    requires s != []
  {
    s[..|s| - 1]
  }

  /** `popLast()` on a Swift array: the removed last element (or nil) and the remaining array. */
  function PopLast<T>(s: seq<T>): (r: (Option<T>, seq<T>))
    ensures s == [] ==> r == (None, [])
    ensures s != [] ==> r.0 == Some(s[|s| - 1]) && r.1 + [s[|s| - 1]] == s
  {
    if s == [] then (None, []) else (Some(Last(s)), DropLast(s))
  }

  /** The elements of a sequence, as a set. */
  function Elements<T>(s: seq<T>): (r: set<T>) {
    set x | x in s
  }

  /** A sequence without duplicates has as many distinct elements as it has positions. */
  lemma {:induction false} DistinctCardinality<T>(s: seq<T>)
    requires Distinct(s)
    ensures |Elements(s)| == |s|
  {
    if s != [] {
      DistinctCardinality(s[1..]);
      assert Elements(s) == Elements(s[1..]) + {s[0]};
      assert s[0] !in Elements(s[1..]);
    }
  }

  /** A subset is no larger than its superset. */
  lemma {:induction false} SubsetCardinality<T>(a: set<T>, b: set<T>)
    requires a <= b
    ensures |a| <= |b|
    decreases a
  {
    if a != {} {
      var x :| x in a;
      SubsetCardinality(a - {x}, b - {x});
    }
  }
}
