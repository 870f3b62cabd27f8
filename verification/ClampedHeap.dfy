/** The monotone-action heap over the shipped clamp family: what a whole-heap clamp does to its priorities. */
module ClampedHeap {
  import opened Comparisons
  import opened Options
  import opened ActionPolicy
  import opened ActionEntries
  import opened ActionHeapKernel
  import opened MonotoneActionHeap
  import opened ClampFamily

  /** The priority lies within the clamp's bounds, or is its constant. */
  ghost predicate Within<P>(cmp: (P, P) -> int, c: Clamp<P>, p: P) {
    && (c.constant.Some? ==> p == c.constant.value)
    && (c.lower.Some? ==> cmp(c.lower.value, p) <= 0)
    && (c.upper.Some? ==> cmp(p, c.upper.value) <= 0)
  }

  /** After clamping the heap every priority lies within the bounds. Each entry keeps its element, and its priority too
      where that already lay within them. */
  lemma TransformClamps<E(!new), P(!new)>(cmp: (P, P) -> int, h: Heap<E, P, Clamp<P>>, c: Clamp<P>)
    requires TotalPreorder(cmp) && WellFormed(cmp, c) && Valid(ClampPolicy(cmp), h)
    ensures var pol := ClampPolicy(cmp);
      var before, after := HeapEntries(pol, h), HeapEntries(pol, TransformAll(pol, h, c));
      && Valid(pol, TransformAll(pol, h, c)) && |after| == |before|
      && forall i :: 0 <= i < |after| ==>
           && after[i].0 == before[i].0 && Within(cmp, c, after[i].1)
           && (Within(cmp, c, before[i].1) ==> after[i].1 == before[i].1)
  {
    var pol := ClampPolicy(cmp);
    ClampFamilyIsLawful(cmp);
    TransformAllFacts(pol, h, c);
    hide Lawful, Valid, HeapEntries, TransformAll;
    var before := HeapEntries(pol, h);
    forall i | 0 <= i < |before|
      ensures Within(cmp, c, pol.Apply(c, before[i].1))
      ensures Within(cmp, c, before[i].1) ==> pol.Apply(c, before[i].1) == before[i].1
    {
      ApplyClamps(cmp, c, before[i].1);
      if c.lower.Some? { OrderFacts(cmp, c.lower.value, before[i].1, before[i].1); }
    }
  }
}
