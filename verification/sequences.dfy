/** Generic notions about sequences used by the retrieval filter and by the
    line de-duplication of the answer clean-up. */
module Sequences {

  /** No value occurs at two different positions of `xs`. */
  predicate Distinct<T(==)>(xs: seq<T>) {
    forall i, j :: 0 <= i < j < |xs| ==> xs[i] != xs[j]
  }

  /** The elements of `a` occur in `b` in the same order, not necessarily
      adjacently. Matching each element of `a` against the earliest possible
      position of `b` loses no solution, so the greedy recursion decides the
      relation exactly. */
  predicate IsSubsequence<T(==)>(a: seq<T>, b: seq<T>)
    decreases |b|
  {
    if a == [] then true
    else if b == [] then false
    else if a[0] == b[0] then IsSubsequence(a[1..], b[1..])
    else IsSubsequence(a, b[1..])
  }
}
