/**
 * PushBackUniquely: append a value to the caller's vector or list, or a
 * string pair to a vector of pairs, unless an equal value is already there.
 * The container is changed in place; it is a class whose one field is its
 * sequence of elements.
 */
module Containers {

  /** What PushBackUniquely leaves in a container that held `s`. */
  function PushedUniquely<T(==)>(s: seq<T>, value: T): seq<T> {
    if value in s then s else s + [value]
  }

  /** No element occurs twice. */
  predicate NoDuplicates<T(==)>(s: seq<T>) {
    forall i, j :: 0 <= i < j < |s| ==> s[i] != s[j]
  }

  /** A std::vector<std::string> or std::list<std::string> (T = string), or a StrPairVec (T = StrPair). */
  class Sequence<T(==)> {
    var elements: seq<T>

    constructor(elements: seq<T>)
      ensures this.elements == elements
    {
      this.elements := elements;
    }

    /** The vector and list overloads: search with `find`, append when the search reaches the end. */
    method PushBackUniquely(value: T)
      modifies this
      ensures elements == PushedUniquely(old(elements), value)
    {
      var i := 0;
      while i < |elements| && elements[i] != value
        invariant 0 <= i <= |elements|
        invariant forall j :: 0 <= j < i ==> elements[j] != value
      {
        i := i + 1;
      }
      if i == |elements| {
        elements := elements + [value];
      }
    }
  }

  /** std::pair<std::string, std::string>. */
  type StrPair = (string, string)

  /** The pair-vector overload: return as soon as an item matches in both components, else append. */
  method PushBackPairUniquely(vec: Sequence<StrPair>, value: StrPair)
    modifies vec
    ensures vec.elements == PushedUniquely(old(vec.elements), value)
  {
    for i := 0 to |vec.elements|
      invariant forall j :: 0 <= j < i ==> vec.elements[j] != value
    {
      var item := vec.elements[i];
      if value.0 == item.0 && value.1 == item.1 {
        return;
      }
    }
    vec.elements := vec.elements + [value];
  }

  /**
   * Afterwards the value is present; if it was there before nothing
   * changed, otherwise it is appended at the end and the earlier elements
   * keep their places.
   */
  lemma PushedUniquelyShape<T>(s: seq<T>, value: T)
    ensures var r := PushedUniquely(s, value);
      && value in r
      && (value in s ==> r == s)
      && (value !in s ==> |r| == |s| + 1 && r[..|s|] == s && r[|s|] == value)
  {
  }

  /** The elements afterwards are the elements before plus the value. */
  lemma PushedUniquelyElements<T>(s: seq<T>, value: T)
    ensures multiset(PushedUniquely(s, value)) == multiset(s) + (if value in s then multiset{} else multiset{value})
    ensures (set x | x in PushedUniquely(s, value)) == (set x | x in s) + {value}
  {
  }

  /** A container without duplicates never gains one. */
  lemma PushedUniquelyKeepsDistinct<T>(s: seq<T>, value: T)
    requires NoDuplicates(s)
    ensures NoDuplicates(PushedUniquely(s, value))
  {
  }

  /** Pushing the same value twice is pushing it once. */
  lemma PushedUniquelyIdempotent<T>(s: seq<T>, value: T)
    ensures PushedUniquely(PushedUniquely(s, value), value) == PushedUniquely(s, value)
  {
  }

  /** Pushing every value of `values` in order. */
  function PushedAll<T(==)>(s: seq<T>, values: seq<T>): seq<T>
    decreases |values|
  {
    if values == [] then s else PushedAll(PushedUniquely(s, values[0]), values[1..])
  }

  /**
   * Pushing a list of values one by one onto a container without duplicates
   * keeps it free of duplicates and collects exactly the old elements and
   * the new values.
   */
  lemma {:induction false} PushedAllCollects<T>(s: seq<T>, values: seq<T>)
    requires NoDuplicates(s)
    ensures NoDuplicates(PushedAll(s, values))
    ensures forall x :: x in PushedAll(s, values) <==> x in s || x in values
    decreases |values|
  {
    if values != [] {
      PushedUniquelyKeepsDistinct(s, values[0]);
      PushedAllCollects(PushedUniquely(s, values[0]), values[1..]);
      assert forall x :: x in values <==> x == values[0] || x in values[1..];
    }
  }
}
