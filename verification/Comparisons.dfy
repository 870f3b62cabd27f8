/** The comparators that callers supply. */
module Comparisons {

  /** Sign-symmetric and transitive; distinct values may tie. */
  ghost predicate TotalPreorder<K(!new)>(cmp: (K, K) -> int) {
    && (forall x, y :: cmp(x, y) < 0 <==> cmp(y, x) > 0)
    && (forall x, y, z :: cmp(x, y) <= 0 && cmp(y, z) <= 0 ==> cmp(x, z) <= 0)
  }

  /** What the law says of three values. */
  lemma OrderFacts<K(!new)>(cmp: (K, K) -> int, x: K, y: K, z: K)
    requires TotalPreorder(cmp)
    ensures cmp(x, x) == 0 && (cmp(x, y) < 0 <==> cmp(y, x) > 0) && (cmp(x, y) == 0 <==> cmp(y, x) == 0)
    ensures cmp(x, y) < 0 && cmp(y, z) < 0 ==> cmp(x, z) < 0
    ensures cmp(x, y) == 0 && cmp(y, z) < 0 ==> cmp(x, z) < 0
    ensures cmp(x, y) == 0 && cmp(z, x) < 0 ==> cmp(z, y) < 0
    ensures cmp(x, y) == 0 && cmp(y, z) == 0 ==> cmp(x, z) == 0
  {
  }
}
