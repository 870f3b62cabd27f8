/** The Brodal-Okasaki heap: the same bootstrapped skew-binomial kernel with no actions to carry, so every tag
    is the one trivial action. Values are their own priorities. */
module BrodalOkasakiHeap {
  import opened Comparisons
  import opened Machine
  import opened Options
  import opened ActionPolicy
  import opened ActionEntries
  import opened ActionHeapKernel
  import opened MonotoneActionHeap

  type Values<!V> = Heap<(), V, ()>

  /** A comparison and the action family that does nothing. */
  function Untagged<V>(cmp: (V, V) -> int): Policy<V, ()> {
    Policy((), _ => true, (_, _) => (), (_, v) => v, cmp, _ => true)
  }

  lemma UntaggedIsLawful<V(!new)>(cmp: (V, V) -> int)
    requires TotalPreorder(cmp)
    ensures Lawful(Untagged(cmp))
  {
  }

  ghost predicate Ascending<V>(cmp: (V, V) -> int, s: seq<V>) {
    forall i, j :: 0 <= i < j < |s| ==> cmp(s[i], s[j]) <= 0
  }

  /** The entries that stand for plain values. */
  function Tagged<V>(s: seq<V>): (r: seq<Entry<(), V>>)
    ensures |r| == |s| && forall i :: 0 <= i < |s| ==> r[i] == ((), s[i])
  {
    seq(|s|, i requires 0 <= i < |s| => ((), s[i]))
  }

  lemma TaggedPush<V>(s: seq<V>, v: V)
    ensures multiset(Tagged(s + [v])) == multiset(Tagged(s)) + multiset{((), v)}
  {
    assert Tagged(s + [v]) == Tagged(s) + [((), v)];
  }

  lemma EmptyFacts<V(!new)>(cmp: (V, V) -> int)
    ensures var empty: Values<V> := Heap(None, 0);
      Valid(Untagged(cmp), empty) && Contents(Untagged(cmp), empty) == multiset([])
  {
  }

  /** Inserting a whole array is refused only when its bytes do not fit a machine word; the count never overflows. */
  method FromArray<V(!new)>(cmp: (V, V) -> int, valueSize: nat, values: seq<V>) returns (status: Status, heap: Values<V>)
    requires TotalPreorder(cmp) && valueSize != 0
    ensures status == if |values| * valueSize > SIZE_MAX then InvalidArgument else Ok
    ensures status.Ok? ==> Valid(Untagged(cmp), heap) && Contents(Untagged(cmp), heap) == multiset(Tagged(values))
  {
    hide Valid, Contents, Insert, Lawful, Untagged;
    var pol := Untagged(cmp);
    UntaggedIsLawful(cmp);
    EmptyFacts(cmp);
    heap := Heap(None, 0);
    MultiplyOverflowsMeans(|values|, valueSize);
    if MultiplyOverflows(|values|, valueSize) {
      return InvalidArgument, heap;
    }
    CountFits(|values|, valueSize);
    assert Tagged(values[..0]) == [];
    var n := 0;
    while n != |values|
      invariant 0 <= n <= |values| && n <= SIZE_MAX
      invariant Valid(pol, heap) && Contents(pol, heap) == multiset(Tagged(values[..n])) && heap.count == n
    {
      InsertFacts(pol, heap, (), values[n]);
      var next := Insert(pol, heap, (), values[n]);
      if next.Failure? {
        assert false;
      }
      TaggedPush(values[..n], values[n]);
      assert values[..n + 1] == values[..n] + [values[n]];
      InsertCounts(pol, heap, values[n]);
      heap := next.value;
      n := n + 1;
    }
    assert values[..n] == values;
    status := Ok;
  }

  lemma CountFits(count: nat, valueSize: nat)
    requires valueSize != 0 && !MultiplyOverflows(count, valueSize)
    ensures count <= SIZE_MAX
  {
  }

  lemma InsertCounts<V>(pol: Policy<V, ()>, h: Values<V>, v: V)
    ensures Insert(pol, h, (), v).Success? ==> Insert(pol, h, (), v).value.count == h.count + 1
  {
  }

  /** Deleting until the heap is empty reports the contents in ascending order. */
  method Drain<V(!new)>(cmp: (V, V) -> int, heap: Values<V>) returns (sorted: seq<V>)
    requires TotalPreorder(cmp) && Valid(Untagged(cmp), heap)
    ensures Ascending(cmp, sorted) && multiset(Tagged(sorted)) == Contents(Untagged(cmp), heap)
  {
    var pol := Untagged(cmp);
    UntaggedIsLawful(cmp);
    var rest := heap;
    sorted := [];
    assert Tagged<V>([]) == [];
    while rest.root.Some?
      invariant Valid(pol, rest) && Ascending(cmp, sorted)
      invariant multiset(Tagged(sorted)) + Contents(pol, rest) == Contents(pol, heap)
      invariant forall i, e :: 0 <= i < |sorted| && e in Contents(pol, rest) ==> cmp(sorted[i], e.1) <= 0
      decreases |Contents(pol, rest)|
    {
      hide Valid, Contents, Lawful;
      MinimumIsLeast(pol, rest);
      var status, next := DeleteMinimum(pol, rest);
      DeletesContents(pol, rest, next);
      var v := Minimum(rest).1;
      DrainStep(cmp, sorted, rest, next);
      sorted := sorted + [v];
      rest := next;
    }
    ContentsOf(pol, rest);
  }

  /** One deletion moves the least value from the heap to the end of the report. */
  lemma DrainStep<V(!new)>(cmp: (V, V) -> int, sorted: seq<V>, h: Values<V>, r: Values<V>)
    requires h.root.Some? && Ascending(cmp, sorted)
    requires Contents(Untagged(cmp), h) == Contents(Untagged(cmp), r) + multiset{Minimum(h)}
    requires forall e :: e in Contents(Untagged(cmp), h) ==> cmp(Minimum(h).1, e.1) <= 0
    requires forall i, e :: 0 <= i < |sorted| && e in Contents(Untagged(cmp), h) ==> cmp(sorted[i], e.1) <= 0
    ensures var pol, longer := Untagged(cmp), sorted + [Minimum(h).1];
      && Ascending(cmp, longer) && |Contents(pol, r)| < |Contents(pol, h)|
      && multiset(Tagged(longer)) + Contents(pol, r) == multiset(Tagged(sorted)) + Contents(pol, h)
      && forall i, e :: 0 <= i < |longer| && e in Contents(pol, r) ==> cmp(longer[i], e.1) <= 0
  {
    hide Contents;
    var pol, m := Untagged(cmp), Minimum(h);
    assert m in Contents(pol, h);
    TaggedPush(sorted, m.1);
    match m.0
    case () =>
    assert m == ((), m.1);
    assert multiset(Tagged(sorted)) + multiset{m} + Contents(pol, r) == multiset(Tagged(sorted)) + (Contents(pol, r) + multiset{m});
    forall e | e in Contents(pol, r) ensures e in Contents(pol, h) {}
  }
}
