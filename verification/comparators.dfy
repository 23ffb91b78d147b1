/**
  The laws a `java.util.Comparator` (and `Comparable.compareTo`) must obey for
  sorting and binary search to be meaningful, stated for comparison functions
  that answer -1, 0 or 1.
*/
module Comparators {

  ghost predicate SignValued<T(!new)>(cmp: (T, T) -> int) {
    forall x, y :: cmp(x, y) == -1 || cmp(x, y) == 0 || cmp(x, y) == 1
  }

  ghost predicate Reflexive<T(!new)>(cmp: (T, T) -> int) {
    forall x :: cmp(x, x) == 0
  }

  /** Swapping the arguments negates the answer. */
  ghost predicate Antisymmetric<T(!new)>(cmp: (T, T) -> int) {
    forall x, y :: cmp(x, y) == -cmp(y, x)
  }

  ghost predicate Transitive<T(!new)>(cmp: (T, T) -> int) {
    forall x, y, z :: cmp(x, y) <= 0 && cmp(y, z) <= 0 ==> cmp(x, z) <= 0
  }

  /** A total preorder presented as a three-way comparison. */
  ghost predicate IsComparator<T(!new)>(cmp: (T, T) -> int) {
    && SignValued(cmp)
    && Reflexive(cmp)
    && Antisymmetric(cmp)
    && Transitive(cmp)
  }

  /** `xs` is in ascending order under `cmp`. */
  ghost predicate SortedBy<T>(cmp: (T, T) -> int, xs: seq<T>) {
    forall i, j :: 0 <= i < j < |xs| ==> cmp(xs[i], xs[j]) <= 0
  }
}
