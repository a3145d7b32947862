/** Orderings of the distinct elements of a sequence, as Python produces them
    when it iterates a `set` built from a list or the keys of a `dict`. */
module Enumerations {

  predicate NoDuplicates<T(==)>(xs: seq<T>)
  {
    forall i, j :: 0 <= i < j < |xs| ==> xs[i] != xs[j]
  }

  /** e lists every distinct element of xs exactly once, in some order. */
  predicate IsEnumeration<T(==)>(e: seq<T>, xs: seq<T>)
  {
    && (forall x :: x in e ==> x in xs)
    && (forall x :: x in xs ==> x in e)
    && NoDuplicates(e)
  }

  /** The distinct elements of xs in order of first occurrence. */
  function Distinct<T(==)>(xs: seq<T>): (r: seq<T>)
    ensures IsEnumeration(r, xs)
  {
    if |xs| == 0 then []
    else
      var d := Distinct(xs[..|xs| - 1]);
      var x := xs[|xs| - 1];
      assert xs == xs[..|xs| - 1] + [x];
      if x in d then d else d + [x]
  }
}
