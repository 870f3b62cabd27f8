/** The pruned range walk of the delta map. A bound that an ancestor has established for a whole subtree is
    not compared again. */
module RangeWalk {
  import opened Comparisons
  import opened KeyOrder
  import opened SortedEntries
  import opened WeightBalanced
  import opened OrderedIndex

  /** The visited entries, and the operands of every key comparison made. */
  datatype Walk<E, K> = Walk(visited: seq<E>, compared: seq<(K, K)>)

  /** The only place where the walk calls the comparison. */
  function Compare<K>(cmp: (K, K) -> int, x: K, y: K): (r: (int, seq<(K, K)>))
    ensures r.0 == cmp(x, y) && r.1 == [(x, y)]
  {
    (cmp(x, y), [(x, y)])
  }

  function VisitNodes<E, K>(ord: Order<E, K>, t: Tree<E>, low: K, high: K, lowOk: bool, highOk: bool): Walk<E, K> {
    if t.Nil? then Walk([], [])
    else if lowOk && highOk then Walk(Flat(t), [])
    else
      var x := ord.key(t.entry);
      var (fromLow, askedLow) := if lowOk then (-1, []) else Compare(ord.cmp, low, x);
      var (toHigh, askedHigh) := if highOk then (-1, []) else Compare(ord.cmp, x, high);
      var l := if fromLow <= 0 then VisitNodes(ord, t.left, low, high, lowOk, highOk || toHigh <= 0) else Walk([], []);
      var self := if fromLow <= 0 && toHigh <= 0 then [t.entry] else [];
      var r := if toHigh <= 0 then VisitNodes(ord, t.right, low, high, lowOk || fromLow <= 0, highOk) else Walk([], []);
      Walk(l.visited + self + r.visited, askedLow + askedHigh + l.compared + r.compared)
  }

  function VisitRange<E, K>(ord: Order<E, K>, root: Tree<E>, low: K, high: K): Walk<E, K> {
    var (order, asked) := Compare(ord.cmp, low, high);
    if order > 0 then Walk([], asked)
    else
      var w := VisitNodes(ord, root, low, high, false, false);
      Walk(w.visited, asked + w.compared)
  }

  ghost predicate AtLeast<E, K>(ord: Order<E, K>, e: E, low: K) {
    !ord.Less(ord.key(e), low)
  }

  ghost predicate AtMost<E, K>(ord: Order<E, K>, e: E, high: K) {
    !ord.Less(high, ord.key(e))
  }

  /** `visited` is ascending and holds exactly the entries of s within the bounds. */
  ghost predicate Exactly<E(!new), K>(ord: Order<E, K>, s: seq<E>, low: K, high: K, visited: seq<E>) {
    && Sorted(ord, visited)
    && (forall e :: e in visited <==> e in s && AtLeast(ord, e, low) && AtMost(ord, e, high))
  }

  /** What the flags claim of a whole subtree. */
  ghost predicate Established<E, K>(ord: Order<E, K>, s: seq<E>, low: K, high: K, lowOk: bool, highOk: bool) {
    && (lowOk ==> forall i :: 0 <= i < |s| ==> AtLeast(ord, s[i], low))
    && (highOk ==> forall i :: 0 <= i < |s| ==> AtMost(ord, s[i], high))
  }

  /** Joins the walks of the two subtrees around their root. */
  lemma ExactJoin<E(!new), K(!new)>(
    ord: Order<E, K>, l: seq<E>, x: E, r: seq<E>, low: K, high: K, lv: seq<E>, self: seq<E>, rv: seq<E>)
    requires Lawful(ord) && AllBelow(ord, l, ord.key(x)) && AllAbove(ord, r, ord.key(x))
    requires Exactly(ord, l, low, high, lv) && Exactly(ord, r, low, high, rv)
    requires self == if AtLeast(ord, x, low) && AtMost(ord, x, high) then [x] else []
    ensures Exactly(ord, l + [x] + r, low, high, lv + self + rv)
  {
    var k := ord.key(x);
    assert AllBelow(ord, lv, k) by {
      forall i | 0 <= i < |lv| ensures ord.Less(ord.key(lv[i]), k) { assert lv[i] in l; }
    }
    assert AllAbove(ord, rv, k) by {
      forall i | 0 <= i < |rv| ensures ord.Less(k, ord.key(rv[i])) { assert rv[i] in r; }
    }
    SortedJoin(ord, lv, x, rv);
    var both := lv + rv;
    assert Sorted(ord, both) by { WithoutMiddle(ord, lv, x, rv); }
    assert self == [] ==> lv + self + rv == both;
    hide TotalPreorder, Sorted, AtLeast, AtMost, AllBelow, AllAbove;
    assert forall e :: e in lv + self + rv <==> e in lv || e in self || e in rv;
    assert forall e :: e in l + [x] + r <==> e in l || e == x || e in r;
  }

  /** A subtree wholly outside a bound has nothing to visit. */
  lemma NothingBelow<E(!new), K(!new)>(ord: Order<E, K>, s: seq<E>, x: K, low: K, high: K)
    requires Lawful(ord) && AllBelow(ord, s, x) && ord.Less(x, low)
    ensures Exactly(ord, s, low, high, [])
  {
    hide TotalPreorder;
    forall e | e in s ensures !AtLeast(ord, e, low) { OrderFacts(ord.cmp, ord.key(e), x, low); }
  }

  lemma NothingAbove<E(!new), K(!new)>(ord: Order<E, K>, s: seq<E>, x: K, low: K, high: K)
    requires Lawful(ord) && AllAbove(ord, s, x) && ord.Less(high, x)
    ensures Exactly(ord, s, low, high, [])
  {
    hide TotalPreorder;
    forall e | e in s ensures !AtMost(ord, e, high) { OrderFacts(ord.cmp, high, x, ord.key(e)); }
  }

  lemma EverythingInside<E(!new), K>(ord: Order<E, K>, s: seq<E>, low: K, high: K)
    requires Sorted(ord, s) && Established(ord, s, low, high, true, true)
    ensures Exactly(ord, s, low, high, s)
  {
  }

  /** Bounds for the two subtrees of a node. */
  lemma EstablishedParts<E(!new), K(!new)>(
    ord: Order<E, K>, l: seq<E>, x: E, r: seq<E>, low: K, high: K, lowOk: bool, highOk: bool)
    requires Lawful(ord) && AllBelow(ord, l, ord.key(x)) && AllAbove(ord, r, ord.key(x))
    requires Established(ord, l + [x] + r, low, high, lowOk, highOk)
    ensures lowOk ==> AtLeast(ord, x, low)
    ensures highOk ==> AtMost(ord, x, high)
    ensures Established(ord, l, low, high, lowOk, highOk || AtMost(ord, x, high))
    ensures Established(ord, r, low, high, lowOk || AtLeast(ord, x, low), highOk)
  {
    hide TotalPreorder;
    var s := l + [x] + r;
    assert s[|l|] == x;
    forall i | 0 <= i < |l|
      ensures lowOk ==> AtLeast(ord, l[i], low)
      ensures AtMost(ord, x, high) ==> AtMost(ord, l[i], high)
    {
      assert s[i] == l[i];
      OrderFacts(ord.cmp, ord.key(l[i]), ord.key(x), high);
      OrderFacts(ord.cmp, high, ord.key(l[i]), ord.key(x));
    }
    forall i | 0 <= i < |r|
      ensures highOk ==> AtMost(ord, r[i], high)
      ensures AtLeast(ord, x, low) ==> AtLeast(ord, r[i], low)
    {
      assert s[|l| + 1 + i] == r[i];
      OrderFacts(ord.cmp, ord.key(x), ord.key(r[i]), low);
    }
  }

  lemma {:induction false} VisitNodesIsExact<E(!new), K(!new)>(
    ord: Order<E, K>, t: Tree<E>, low: K, high: K, lowOk: bool, highOk: bool)
    requires Lawful(ord) && Valid(ord, t) && Established(ord, Flat(t), low, high, lowOk, highOk)
    ensures Exactly(ord, Flat(t), low, high, VisitNodes(ord, t, low, high, lowOk, highOk).visited)
  {
    if t.Nil? {
    } else if lowOk && highOk {
      EverythingInside(ord, Flat(t), low, high);
    } else {
      Subtrees(ord, t);
      var x := t.entry;
      var least, most := AtLeast(ord, x, low), AtMost(ord, x, high);
      Compared(ord, x, low, high);
      hide TotalPreorder, Sorted, Balanced, AllBelow, AllAbove, Established, Exactly, AtLeast, AtMost;
      EstablishedParts(ord, Flat(t.left), x, Flat(t.right), low, high, lowOk, highOk);
      if least { VisitNodesIsExact(ord, t.left, low, high, lowOk, highOk || most); }
      else { NothingBelow(ord, Flat(t.left), ord.key(x), low, high); }
      if most { VisitNodesIsExact(ord, t.right, low, high, lowOk || least, highOk); }
      else { NothingAbove(ord, Flat(t.right), ord.key(x), low, high); }
      var lv := if least then VisitNodes(ord, t.left, low, high, lowOk, highOk || most).visited else [];
      var rv := if most then VisitNodes(ord, t.right, low, high, lowOk || least, highOk).visited else [];
      ExactJoin(ord, Flat(t.left), x, Flat(t.right), low, high, lv, if least && most then [x] else [], rv);
    }
  }

  lemma Compared<E(!new), K(!new)>(ord: Order<E, K>, x: E, low: K, high: K)
    requires Lawful(ord)
    ensures ord.cmp(low, ord.key(x)) <= 0 <==> AtLeast(ord, x, low)
    ensures ord.cmp(ord.key(x), high) <= 0 <==> AtMost(ord, x, high)
    ensures !AtLeast(ord, x, low) ==> ord.Less(ord.key(x), low)
    ensures !AtMost(ord, x, high) ==> ord.Less(high, ord.key(x))
  {
    assert ord.Less(ord.key(x), low) <==> ord.cmp(low, ord.key(x)) > 0;
    assert ord.Less(high, ord.key(x)) <==> ord.cmp(ord.key(x), high) > 0;
  }

  /** The walk visits exactly the entries within both bounds, in ascending order. */
  lemma VisitRangeIsExact<E(!new), K(!new)>(ord: Order<E, K>, root: Tree<E>, low: K, high: K)
    requires Lawful(ord) && Valid(ord, root)
    ensures Exactly(ord, Flat(root), low, high, VisitRange(ord, root, low, high).visited)
  {
    if ord.cmp(low, high) > 0 {
      assert ord.Less(high, low);
      forall e | AtLeast(ord, e, low) && AtMost(ord, e, high) ensures false {
        OrderFacts(ord.cmp, high, low, ord.key(e));
        OrderFacts(ord.cmp, ord.key(e), high, low);
        OrderFacts(ord.cmp, ord.key(e), low, high);
      }
    } else {
      VisitNodesIsExact(ord, root, low, high, false, false);
    }
  }

  // ----- What the walk costs -----

  /** Each bound costs one comparison per level of one path. */
  lemma {:induction false} VisitNodesIsCheap<E, K>(
    ord: Order<E, K>, t: Tree<E>, low: K, high: K, lowOk: bool, highOk: bool)
    ensures |VisitNodes(ord, t, low, high, lowOk, highOk).compared|
         <= (if lowOk then 0 else Height(t)) + (if highOk then 0 else Height(t))
  {
    if t.Node? && !(lowOk && highOk) {
      var x := ord.key(t.entry);
      var least, most := lowOk || ord.cmp(low, x) <= 0, highOk || ord.cmp(x, high) <= 0;
      if least { VisitNodesIsCheap(ord, t.left, low, high, lowOk, most); }
      if most { VisitNodesIsCheap(ord, t.right, low, high, least, highOk); }
    }
  }

  /** Including the check of the bounds, a walk compares keys at most 2 * height + 1 times, and the height is
      logarithmic in the size. */
  lemma VisitRangeIsCheap<E, K>(ord: Order<E, K>, root: Tree<E>, low: K, high: K)
    ensures |VisitRange(ord, root, low, high).compared| <= 2 * Height(root) + 1
    ensures Balanced(root) ==> Exp(4, Height(root)) <= Exp(3, Height(root)) * (Size(root) + 1)
  {
    VisitNodesIsCheap(ord, root, low, high, false, false);
    if Balanced(root) { HeightIsLogarithmic(root); }
  }

  /** The two comparisons answer alike on every listed pair. */
  ghost predicate Agree<K>(cmp: (K, K) -> int, cmp': (K, K) -> int, pairs: seq<(K, K)>) {
    forall i :: 0 <= i < |pairs| ==> cmp(pairs[i].0, pairs[i].1) == cmp'(pairs[i].0, pairs[i].1)
  }

  lemma AgreeParts<K>(cmp: (K, K) -> int, cmp': (K, K) -> int, a: seq<(K, K)>, b: seq<(K, K)>)
    requires Agree(cmp, cmp', a + b)
    ensures Agree(cmp, cmp', a) && Agree(cmp, cmp', b)
  {
    assert forall i :: 0 <= i < |a| ==> (a + b)[i] == a[i];
    assert forall i :: 0 <= i < |b| ==> (a + b)[|a| + i] == b[i];
  }

  /** No comparison goes unlisted: any comparison that answers the listed pairs alike leads to the same walk. */
  lemma {:induction false} VisitNodesListsAll<E, K>(
    ord: Order<E, K>, ord': Order<E, K>, t: Tree<E>, low: K, high: K, lowOk: bool, highOk: bool)
    requires ord'.key == ord.key && Agree(ord.cmp, ord'.cmp, VisitNodes(ord, t, low, high, lowOk, highOk).compared)
    ensures VisitNodes(ord', t, low, high, lowOk, highOk) == VisitNodes(ord, t, low, high, lowOk, highOk)
  {
    if t.Node? && !(lowOk && highOk) {
      var x := ord.key(t.entry);
      var askedLow, askedHigh := if lowOk then [] else [(low, x)], if highOk then [] else [(x, high)];
      var least, most := lowOk || ord.cmp(low, x) <= 0, highOk || ord.cmp(x, high) <= 0;
      var l := if least then VisitNodes(ord, t.left, low, high, lowOk, most).compared else [];
      var r := if most then VisitNodes(ord, t.right, low, high, least, highOk).compared else [];
      AgreeParts(ord.cmp, ord'.cmp, askedLow + askedHigh + l, r);
      AgreeParts(ord.cmp, ord'.cmp, askedLow + askedHigh, l);
      AgreeParts(ord.cmp, ord'.cmp, askedLow, askedHigh);
      if least { VisitNodesListsAll(ord, ord', t.left, low, high, lowOk, most); }
      if most { VisitNodesListsAll(ord, ord', t.right, low, high, least, highOk); }
      assert !lowOk ==> askedLow[0] == (low, x);
      assert !highOk ==> askedHigh[0] == (x, high);
    }
  }

  lemma VisitRangeListsAll<E, K>(ord: Order<E, K>, ord': Order<E, K>, root: Tree<E>, low: K, high: K)
    requires ord'.key == ord.key && Agree(ord.cmp, ord'.cmp, VisitRange(ord, root, low, high).compared)
    ensures VisitRange(ord', root, low, high) == VisitRange(ord, root, low, high)
  {
    assert VisitRange(ord, root, low, high).compared[0] == (low, high);
    if ord.cmp(low, high) <= 0 {
      AgreeParts(ord.cmp, ord'.cmp, [(low, high)], VisitNodes(ord, root, low, high, false, false).compared);
      VisitNodesListsAll(ord, ord', root, low, high, false, false);
    }
  }
}
