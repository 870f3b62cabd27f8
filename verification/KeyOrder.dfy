/** Comparisons of keys, as policies supply them. */
module KeyOrder {
  import opened Comparisons

  /** How entries are ordered: by a key and a comparison of keys. */
  datatype Order<!E, !K> = Order(key: E -> K, cmp: (K, K) -> int)
  {
    predicate Less(a: K, b: K) {
      cmp(a, b) < 0
    }

    predicate Tied(a: K, b: K) {
      cmp(a, b) == 0
    }
  }

  ghost predicate Lawful<E(!new), K(!new)>(ord: Order<E, K>) {
    TotalPreorder(ord.cmp)
  }
}
